# FBUF container engine — a Dafny model

This project models the container engine of `src/fbuf.c`. The engine turns
a stream of primitive values into a file of framed, compressed,
checksummed blocks, and turns such a file back into those values. The
model covers these parts:

- **Primitive codec.** Little-endian fixed-width integers
  (`write_u8/16/32/64`, `read_u8/16/32/64`), raw bytes (`write_raw`,
  `read_raw`), unsigned varints (`fbuf_put_uint`, `fbuf_get_uint`; unsigned
  LEB128 as in section 7.6 of DWARF version 4) and zig-zag signed varints
  (`fbuf_put_int`, `fbuf_get_int`). Reads go through a cursor (`rptr`) that
  may not pass the decompressed length (`origsz`).
- **Checksum engine.** The none algorithm, and Adler-32 as in section 2.2
  of RFC 1950 (modulus 65521, `s1 = 1`, `s2 = 0`). The source's batched
  `adler32_update` is proved equal to the byte-at-a-time recurrence.
  `checksum_finish` packs `s1` into the HIGH half, the reverse of RFC 1950;
  the model follows the code.
- **Block framer.** `fbuf_maybe_flush` decides when to flush, pads short
  blocks to 16 bytes, folds the block into the checksum and `wtotal`, and
  writes a 4-byte big-endian length followed by the compressed bytes.
  The source can pad in the middle of the value stream (see Findings). The
  write calls (`Framer.WriteU8` to `Framer.PutInt`) and the whole-session
  lemmas of `RoundTrip` therefore use a corrected flush, which never pads
  before close. `Framer.AsWrittenAgrees` shows that the corrected call and
  the source's call coincide except in the padding case. So the
  fixed-width and varint writes equal the source's calls in every state the
  source reaches. `RoundTrip.EndToEndAsWritten` carries the end-to-end
  result to the source's own writer and block loop, for write calls
  without a raw write longer than `BLOCK_SIZE - 16` bytes.
- **Header and loader.** The 16-byte header, the close-time rewrite of its
  length and checksum fields (appended instead on a FIFO), and
  `fbuf_decompress`: the header gates and the block loop.
- **Session registry.** `open_list` as a sequence of session ids, with head
  insertion in `fbuf_new`, unlinking in `fbuf_close`, and `fbuf_cleanup`.

Modules follow the engine's parts. `Bytes` covers byte orders, `Varint` the
varint and zig-zag codec, and `Checksum` the checksum engine. `Format`
holds the constants, header, frames and trailer. `Framer` is the writer,
`Reader` the read cursor, and `Loader` is `fbuf_decompress`. `Session`
holds the registry and open/close. `RoundTrip` relates whole sessions:
what a writer writes, a reader reads back. `Faults` lists the fatal
conditions; every `fatal` call becomes an `Err`.

The compressor is a parameter of type `Compressor`. On every block a
writer can flush (shorter than `BLOCK_SIZE + 16` bytes) its output is never
empty and is shorter than `SPILL_SIZE`, which is the property the source
asserts after every call. The decompressor is an arbitrary function. The
end-to-end lemmas assume only that it inverts the compressor on those
blocks (`Loader.Inverts`). File contents are byte
sequences: the writer's sink, and the loader's whole input.

## Model

| member | source | states |
|---|---|---|
| Bytes.FromLEOfLE | src/fbuf.c:433-466 | reading back the `n` little-endian bytes written for `u` gives `u` modulo 256^n |
| Bytes.LEOfFromLE | src/fbuf.c:509-551 | re-encoding the value read from `n` bytes gives the same bytes: the byte order loses nothing |
| Bytes.LERoundTrip | src/fbuf.c:433-466 | a value below 256^n reads back exactly from its `n` bytes |
| Bytes.BE32RoundTrip | src/fbuf.c:33-39 | `UNPACK_BE32(PACK_BE32(u))` is `u` modulo 2^32, so it is `u` for every 32-bit `u` |
| Bytes.BE32Inverse | src/fbuf.c:33-39 | `PACK_BE32(UNPACK_BE32(b))` gives back the same four bytes |
| Varint.EncodeUint | src/fbuf.c:410-420 | the encoding has at least one byte; every byte but the last has the high bit set and the last has it clear; the 7-bit groups, least significant first, spell `v`; the length is minimal |
| Varint.EncodeZero | src/fbuf.c:415-420 | 0 encodes as the single byte 0x00 |
| Varint.EncodeUintAtMostTen | src/fbuf.c:412-420 | a 64-bit value needs at most ten bytes, the size of `enc` |
| Varint.ZigZag | src/fbuf.c:427-431 | `(v << 1) ^ (v >> 63)` maps `v >= 0` to `2v` and `v < 0` to `-2v - 1` |
| Varint.UnZigZag | src/fbuf.c:503-507 | `(zz >> 1) ^ -(zz & 1)` maps an even `zz` to `zz/2` and an odd one to `-(zz/2) - 1` |
| Varint.ZigZagRoundTrip | src/fbuf.c:427-431 | decoding the zig-zag code of any 64-bit signed value gives the value back |
| Varint.ZigZagOnto | src/fbuf.c:503-507 | every 64-bit code is the zig-zag code of the value it decodes to, so the map is a bijection |
| Checksum.Init | src/fbuf.c:130-142 | the initial state has the requested algorithm; for Adler-32, `s1 = 1` and `s2 = 0` |
| Checksum.Update | src/fbuf.c:144-153 | the update keeps the algorithm; the none algorithm leaves the state unchanged |
| Checksum.UpdateConcat | src/fbuf.c:144-153 | updating on `a` then on `b` equals updating on `a + b`, so block boundaries do not matter |
| Checksum.Finish | src/fbuf.c:155-163 | Adler-32 finishes to `s1` in the high 16 bits and `s2` in the low 16 bits; none finishes to 0 |
| Checksum.FinishInjective | src/fbuf.c:159 | two Adler-32 states with the same finished value are equal |
| Checksum.AddUnreduced | src/fbuf.c:93-97 | adding `count` bytes without reduction keeps both sums congruent to the reference sums, within stated bounds |
| Checksum.LeadingBytes | src/fbuf.c:92-102 | the do-while consumes `length % 8` bytes and leaves reduced sums equal to the reference over them |
| Checksum.Batch | src/fbuf.c:104-121 | one pass of eight bytes keeps the main loop's invariant: `s1` reduced, `s2` below 2^32 and congruent to the reference |
| Checksum.BatchBound | src/fbuf.c:117-120 | between two reductions of `s2`, at most 0x1000 batches occur, and `s2` stays below 2^32, so the `unsigned long` never wraps |
| Checksum.AdlerBatches | src/fbuf.c:104-124 | the main loop ends with both sums below 65521 and equal to the byte-at-a-time recurrence |
| Checksum.Adler32Update | src/fbuf.c:82-128 | `adler32_update` equals the byte-at-a-time Adler-32 recurrence on any input |
| Checksum.ChecksumUpdate | src/fbuf.c:144-153 | `checksum_update` equals the reference update for both algorithms |
| Format.Header | src/fbuf.c:186-197 | the header is 16 bytes: "FBUF", the compression tag, the checksum tag, then ten zeros, so both 32-bit fields read as 0 |
| Format.Frame | src/fbuf.c:352-360 | a frame is the compressed bytes preceded by 4 bytes that unpack to their length modulo 2^32 |
| Format.FrameLength | src/fbuf.c:355-358 | since the compressed length is below `SPILL_SIZE`, the prefix unpacks to exactly that length |
| Format.Trailer | src/fbuf.c:211 | the eight bytes unpack to `wtotal` modulo 2^32, followed by the checksum |
| Format.UpdateHeader | src/fbuf.c:199-213 | a seekable file gets the trailer over header bytes 8..16, with everything else unchanged; a FIFO gets it appended |
| Framer.NewWriterConsistent | src/fbuf.c:291-307 | a fresh writer has the header in its sink, nothing pending, and satisfies the writer invariant |
| Framer.Padded | src/fbuf.c:344-348 | the flushed block is the pending bytes followed by zeros up to 16 bytes, or the pending bytes unchanged when there are 16 or more |
| Framer.EmitBlock | src/fbuf.c:350-363 | a flush empties the pending buffer; it appends the padded block to the blocks, the checksum and `wtotal`, and its frame to the sink |
| Framer.EmitBlockConsistent | src/fbuf.c:343-364 | a flush keeps the writer invariant: the sink is the header plus one frame per block, `wtotal` and the checksum cover exactly the block contents, and every block is 16 bytes to below `BLOCK_SIZE + 16` |
| Framer.MaybeFlush | src/fbuf.c:340-365 | `fbuf_maybe_flush` flushes exactly when `wpend + more > BLOCK_SIZE`, and otherwise changes nothing |
| Framer.PutAsWritten | src/fbuf.c:340-365 | a write as the source makes it keeps `wpend <= BLOCK_SIZE < SPILL_SIZE`; it flushes the padded pending bytes exactly when the new bytes would not fit |
| Framer.PaddingInStream | src/fbuf.c:343-348 | with 1 to 15 bytes pending and a write that does not fit, the flushed stream holds `16 - wpend` zeros between the old bytes and the new ones |
| Framer.MaybeFlushFixed | src/fbuf.c:340-365 | the corrected decision flushes only when the write does not fit and at least 16 bytes are pending, so the flushed block needs no padding |
| Framer.Put | src/fbuf.c:340-365 | a corrected write keeps the pending buffer below `BLOCK_SIZE + 16` and only extends the sink |
| Framer.PutStream | src/fbuf.c:340-365 | after a corrected write, the flushed blocks plus the pending bytes are the old stream followed by exactly the new bytes |
| Framer.PutConsistent | src/fbuf.c:340-365 | a corrected write keeps the writer invariant |
| Framer.AsWrittenAgrees | src/fbuf.c:340-365 | with at most `BLOCK_SIZE` bytes pending, the source's write and the corrected write leave the same writer iff it is not the case that 1 to 15 bytes are pending and the new bytes do not fit beside them |
| Framer.WriteFixed | src/fbuf.c:433-466 | a fixed-width write (corrected flush) appends the value's `n` little-endian bytes to the stream; with at most `BLOCK_SIZE` bytes pending it is exactly the source's call |
| Framer.WriteU8 | src/fbuf.c:462-466 | `write_u8` appends the byte; with at most `BLOCK_SIZE` bytes pending it is exactly the source's call |
| Framer.WriteU16 | src/fbuf.c:455-460 | `write_u16` appends two bytes, low byte first; with at most `BLOCK_SIZE` bytes pending it is exactly the source's call |
| Framer.WriteU32 | src/fbuf.c:433-440 | `write_u32` appends four bytes, low byte first; with at most `BLOCK_SIZE` bytes pending it is exactly the source's call |
| Framer.WriteU64 | src/fbuf.c:442-453 | `write_u64` appends eight bytes, low byte first; with at most `BLOCK_SIZE` bytes pending it is exactly the source's call |
| Framer.WriteRaw | src/fbuf.c:468-473 | the corrected `write_raw` appends the bytes verbatim; with at most `BLOCK_SIZE` bytes pending it is the source's call iff it is not the case that 1 to 15 bytes are pending and the bytes do not fit beside them |
| Framer.PutUint | src/fbuf.c:410-425 | `fbuf_put_uint` appends the varint encoding of the value, at most ten bytes; with at most `BLOCK_SIZE` bytes pending it is exactly the source's call |
| Framer.PutInt | src/fbuf.c:427-431 | `fbuf_put_int` appends the varint encoding of the zig-zag code; with at most `BLOCK_SIZE` bytes pending it is exactly the source's call |
| Framer.FinalFlush | src/fbuf.c:367-370 | the close-time flush writes a block exactly when bytes are pending, so an empty session writes no block; what it flushes is everything written plus fewer than 16 zero bytes |
| Reader.ReadFixed | src/fbuf.c:509-551 | an N-byte read succeeds iff `rptr + N <= origsz`; otherwise it fails with the read-past-end fault. On success it advances `rptr` by exactly N, and the value is the one whose little-endian bytes are the bytes consumed |
| Reader.ReadFixedRoundTrip | src/fbuf.c:509-551 | a fixed-width value's bytes read back as that value modulo 256^N, whatever surrounds them |
| Reader.ReadU8 | src/fbuf.c:531-535 | `read_u8` succeeds iff a byte remains, returns it and advances by one |
| Reader.ReadU16 | src/fbuf.c:521-529 | `read_u16` succeeds iff two bytes remain; the value's little-endian bytes are the two consumed |
| Reader.ReadU32 | src/fbuf.c:509-519 | `read_u32` succeeds iff four bytes remain; the value's little-endian bytes are the four consumed |
| Reader.ReadU64 | src/fbuf.c:537-551 | `read_u64` succeeds iff eight bytes remain; the value's little-endian bytes are the eight consumed |
| Reader.ReadRaw | src/fbuf.c:553-558 | `read_raw` succeeds iff `len` bytes remain, returns those bytes and advances by `len` |
| Reader.VarintEnd | src/fbuf.c:487-492 | the first loop of `fbuf_get_uint` stops after the first byte with the high bit clear, at most ten bytes on; otherwise it reports running past the end or an eleventh group |
| Reader.VarintEndAt | src/fbuf.c:487-492 | over a complete varint of at most ten bytes, the loop stops right after its last byte |
| Reader.Spell | src/fbuf.c:494-500 | the second loop yields the value of the stored groups modulo 2^64 |
| Reader.GetUintAsWritten | src/fbuf.c:482-501 | `fbuf_get_uint` as written fails only by running past the end or by storing past `dec` |
| Reader.GetUint | src/fbuf.c:482-501 | the bounded `fbuf_get_uint` fails only by running past the end or on a varint that is too long; on success it consumes at least one byte and stays within `origsz` |
| Reader.GetUintSpells | src/fbuf.c:482-501 | what `fbuf_get_uint` consumes is one complete varint of at most ten bytes, and the value is what those bytes spell |
| Reader.GetUintOfTerminated | src/fbuf.c:482-501 | any complete varint of at most ten bytes reads back as the value it spells and consumes exactly its bytes |
| Reader.GetUintAt | src/fbuf.c:482-501 | the bytes `fbuf_put_uint` writes for any 64-bit value read back as that value and consume exactly those bytes, wherever they sit |
| Reader.GetUintAgree | src/fbuf.c:484-492 | the as-written and bounded readers differ only on a varint longer than ten bytes |
| Reader.GetUintOverrun | src/fbuf.c:484-492 | eleven continuation bytes make the source store past `dec[10]`, while the bounded reader rejects them |
| Reader.GetInt | src/fbuf.c:503-507 | `fbuf_get_int` fails iff `fbuf_get_uint` fails; on success the zig-zag code of its result is the varint read |
| Reader.GetIntAt | src/fbuf.c:503-507 | the bytes `fbuf_put_int` writes for any 64-bit signed value read back as that value |
| Loader.Inflate | src/fbuf.c:276-278 | the decompressor's result is never longer than `maxout`, and when it is non-empty it is what the decompressor reconstructs |
| Loader.NextBlock | src/fbuf.c:266-283 | one loop turn stops iff the buffer is full. Each gate's fault: a prefix past the input or a block running past it is `ReadPastCompressed`; a compressed length over `SPILL_SIZE`, or a block that does not decompress within the room left and the spill size, is `InvalidCompression`. Otherwise the turn takes what the decompressor reconstructs from the bytes after the prefix, and consumes the prefix and the block |
| Loader.NextBlockAsWritten | src/fbuf.c:266-283 | the source's turn is the intended one, except exactly where it reads the prefix past the input or lets the decompressor write a valid block longer than the room left; every turn the intended loop takes, the source takes too |
| Loader.DecodeBlocks | src/fbuf.c:266-284 | the block loop produces exactly `origsz` bytes with the checksum folded over them in order, or fails with a block fault |
| Loader.DecodeBlocksAgree | src/fbuf.c:266-284 | the source's loop gives the intended result unless it performs an out-of-bounds access, and it decodes every input the intended loop decodes, to the same result |
| Loader.DecodeOneFrame | src/fbuf.c:266-284 | the frame of a block the decompressor gets back decodes to that block, followed by whatever the rest decodes to |
| Loader.DecodeFrames | src/fbuf.c:266-284 | the frames of blocks that round-trip decode to the blocks' contents and their checksum, whatever follows |
| Loader.EffectiveHeader | src/fbuf.c:237-260 | the header in effect is the first 16 bytes; on a FIFO its bytes 8..16 come from the last eight input bytes |
| Loader.Load | src/fbuf.c:259-264 | the session is loaded iff the block loop succeeded |
| Loader.Decompress | src/fbuf.c:215-284 | the gates are checked in the source's order: short header, magic, compression tag, checksum tag. On success `origsz` and `expect` come from the header in effect, and the checksum covers exactly the loaded bytes. Past the gates, it loads iff the block loop succeeds, with the loop's bytes, and otherwise fails with the loop's block fault |
| Loader.DecompressAsWritten | src/fbuf.c:215-284 | the source's `fbuf_decompress` agrees with the intended one wherever it stays inside its buffers, and loads every file the intended one loads, to the same result |
| Loader.WrittenHeaderPasses | src/fbuf.c:220-229 | a header as the writer writes it passes all three gates |
| Loader.TrailerFields | src/fbuf.c:259-260 | the trailer the writer wrote unpacks to its total and its checksum |
| Loader.LoadFrames | src/fbuf.c:215-284 | a file laid out as the writer leaves it loads back to the blocks' contents, their checksum and the stored checksum, through the intended loop and through the source's |
| Loader.TruncatedPrefix | src/fbuf.c:266-267 | a header promising one byte, with no block after it, makes the source read the length prefix past the input; the intended loader reports it |
| Loader.OversizedBlock | src/fbuf.c:276 | a block that inflates to more than the room left makes the source write past `rbuf`; the intended loader rejects it |
| Session.Register | src/fbuf.c:299-314 | `fbuf_new` puts the new session at the head: its `next` is the old head, and the old head's `prev` is the new session; no session repeats and no other appears |
| Session.RegisterKeepsLinks | src/fbuf.c:311-314 | registering keeps every older session's `next`, and the `prev` of every one but the old head |
| Session.Unlink | src/fbuf.c:391-401 | closing removes one entry and keeps the list free of repeats, holding every other session |
| Session.UnlinkIsWithout | src/fbuf.c:391-401 | unlinking equals removing exactly the closed session, with the others in their original order |
| Session.UnlinkRewires | src/fbuf.c:391-401 | for the head: its `next` becomes the head and loses its `prev`; for an interior session: its `prev` and `next` are linked to each other and the head stays |
| Session.OpenWrite | src/fbuf.c:291-314 | opening for writing registers a fresh writer with the header written, and keeps every other session |
| Session.OpenRead | src/fbuf.c:291-314 | opening for reading fails iff the load fails, with its fault. Otherwise it registers a reader at position 0 of the loaded bytes, holding the expected checksum |
| Session.Seal | src/fbuf.c:367-387 | the writer's close flushes, finishes the checksum, keeps the first eight header bytes, and puts the total and the checksum in the header in effect |
| Session.Drop | src/fbuf.c:389-408 | the closed session leaves the list and the registry; every other session is unchanged |
| Session.Close | src/fbuf.c:367-408 | closing a reader fails iff its finished checksum differs from the expected one. Otherwise the session leaves the registry; a reader reports the expected checksum, and a writer reports the sealed file and its checksum |
| Session.CleanupRemovesWriters | src/fbuf.c:165-172 | cleanup removes the file of every open writer session and of nothing else |
| RoundTrip.EncodingFits | src/fbuf.c:342 | no write call asks the flush for more than `BLOCK_SIZE` bytes |
| RoundTrip.WriteItemCalls | src/fbuf.c:410-473 | each kind of value is written by its own write call |
| RoundTrip.WriteItemConsistent | src/fbuf.c:410-473 | every write call keeps the writer invariant |
| RoundTrip.WriteAll | src/fbuf.c:410-473 | a sequence of write calls with the corrected flush appends the concatenated encodings to the stream |
| RoundTrip.WriteAllConsistent | src/fbuf.c:410-473 | a sequence of write calls keeps the writer invariant |
| RoundTrip.ReadItemAt | src/fbuf.c:503-558 | the encoding of any value, wherever it sits, reads back as that value and consumes exactly its bytes |
| RoundTrip.ReadAllAt | src/fbuf.c:503-558 | the bytes of a sequence of write calls read back, call by call, as the values written |
| RoundTrip.SealLayout | src/fbuf.c:367-387 | a sealed file is the header, one frame per block and, on a FIFO, the trailer; every block is non-empty and below `BLOCK_SIZE + 16` |
| RoundTrip.SealLoads | src/fbuf.c:367-387 | a sealed file loads back to the flushed contents with their checksum, next to the stored checksum |
| RoundTrip.SealChecksum | src/fbuf.c:372-385 | the checksum close stores is the finished checksum over every flushed block, padding included |
| RoundTrip.WrittenWriter | src/fbuf.c:410-473 | after the write calls with the corrected flush, a fresh writer is consistent and holds exactly their encodings |
| RoundTrip.EndToEnd | src/fbuf.c:215-558 | values written with the corrected flush and sealed load back and read back as the values written, and the file's checksum is the one the reader computes and the writer reported |
| RoundTrip.SessionRoundTrip | src/fbuf.c:291-408 | a reader opened on a file sealed by the corrected writer closes without a checksum fault, reports the writer's checksum, and leaves the list as it was |
| RoundTrip.WriteItemAsWritten | src/fbuf.c:340-365 | a source write call keeps `wpend <= BLOCK_SIZE`, and a call that does not fit flushes the padded pending bytes |
| RoundTrip.WriteItemAgrees | src/fbuf.c:410-473 | a write call as the source makes it leaves the same writer as the corrected call iff it does not meet 1 to 15 pending bytes with an encoding that does not fit beside them |
| RoundTrip.WriteAllAgrees | src/fbuf.c:340-473 | on write calls without a raw write longer than `BLOCK_SIZE - 16` bytes, the source's writer and the corrected one leave the same writer |
| RoundTrip.EndToEndAsWritten | src/fbuf.c:215-558 | on such write calls, the file the source's writer seals loads through the source's block loop and reads back as the values written, with the checksum the writer reported |
| RoundTrip.PaddingCorrupts | src/fbuf.c:343-348 | five `write_u8` calls then a `write_raw` of more than `BLOCK_SIZE - 5` bytes: the source's stream is not the encodings, while the corrected writer's stream is |

## Left out

- File I/O (`fopen`, `fdopen`, `fread`, `fwrite`, `fseek`, `fstat`,
  `fclose`), `map_file` and `unmap_file` are not modelled. The sink is the
  writer's byte sequence, and the loader receives the whole compressed
  input as one sequence.
- The FIFO read loop with `xrealloc` doubling (src/fbuf.c:241-252) is not
  modelled; only its result is, as "trailer bytes replace header bytes
  8..16" (`Loader.EffectiveHeader`).
- Loader.NextBlock: bounds a block by the input's data length. The source's
  FIFO branch bounds it by the buffer's capacity `bufsz`, which may exceed
  the bytes actually read, so the source can read uninitialised capacity
  where the model reports `ReadPastCompressed`.
- FastLZ (`fastlz_compress_level`, `fastlz_decompress`) is a foreign
  library and is a parameter instead. The assumed contract: on inputs
  shorter than `BLOCK_SIZE + 16` bytes, output length in `(0, SPILL_SIZE)`
  and decompression inverts compression; no output longer than `maxout`.
- `write_double` and `read_double` are not modelled: they reinterpret a
  double's bits as the `u64` that is modelled.
- The debug-only `ASSERT_AVAIL` (src/fbuf.c:41-49) is modelled as always
  on. A release build performs no check, and reading past `origsz` is
  undefined behaviour there.
- `fatal`, `fatal_trace` and `fatal_errno` are not modelled as process
  exits; each becomes an `Err` with a `Fault`. Memory management
  (`xmalloc`, `xcalloc`, `free`) and `fbuf_file_name` are left out.
- `fbuf_cleanup` is modelled only as the list of file names it removes
  (`Session.Cleanup`); `fclose` is left out.
- The numeric values of `FBUF_CS_NONE` and `FBUF_CS_ADLER32` are assumed
  to be 0 and 1, following the enumeration's declaration order. That
  declaration lives in `src/fbuf.h`, which is not part of this model; only
  the values' distinctness matters.
- RoundTrip.EndToEnd: requires the written total plus padding to be below
  2^32. The source stores `wtotal` truncated to 32 bits, and a larger file
  does not load back.
- RoundTrip.EndToEndAsWritten: covers the source's writer only on write
  calls without a raw write longer than `BLOCK_SIZE - 16` bytes. A longer
  raw write can meet the padding case (see Findings), and for those the
  end-to-end result is stated of the corrected writer only.
- Reader.GetUint: its own contract states only the bounds. The value read
  is stated by `Reader.GetUintSpells` and `Reader.GetUintAt`.
- `test/mtstress.c` and `src/type.h` are not part of this model: the first
  tests unrelated hash tables, and the second only declares an API.

## Findings

| source | as written | input that shows it | evidently intended | confidence | as-written member | corrected member |
|---|---|---|---|---|---|---|
| src/fbuf.c:343-348 | a flush with fewer than 16 bytes pending pads the block with zeros, in the middle of the value stream | five `write_u8` calls, then a `write_raw` of more than `BLOCK_SIZE - 5` bytes: eleven zeros land between the bytes and the raw data | padding only at close, or a flush only once 16 bytes are pending, so the stream holds exactly what was written | high (not executed) | RoundTrip.PaddingCorrupts | Framer.PutStream |
| src/fbuf.c:484-492 | `dec` has ten entries, but the loop stores a group for every continuation byte | eleven bytes 0x80 followed by 0x00 store an eleventh group past `dec[10]` | reject a varint longer than ten bytes | high (not executed) | Reader.GetUintOverrun | Reader.GetUint |
| src/fbuf.c:266-267 | the 4-byte block length is read without checking that it lies inside the input | a 16-byte header promising `origsz = 1`, with nothing after it | report a read past the compressed input | high (not executed) | Loader.TruncatedPrefix | Loader.NextBlock |
| src/fbuf.c:276 | FastLZ may write up to `SPILL_SIZE` bytes at `dst`, whatever room is left in `rbuf` | `origsz = 16` and one block whose single byte inflates to 32 bytes | limit the output to the room left, `origsz - (dst - rbuf)` | medium (not executed) | Loader.OversizedBlock | Loader.NextBlock |
