# TinyFile: the Snappy codec and the request protocol

This project models and verifies the two parts of TinyFile in which mistakes would be silent:

* **the Snappy codec** (`include/snappy-c/snappy.c`), in the deployed configuration: 64-bit,
  little-endian, flat buffers, all `CHECK`/`DCHECK`s live; the scatter-gather variant of the byte
  source and sink is included as well;
* **the request protocol** (`src/api/api.c`, `src/server/server.c`): the client's priority queue and
  the table of shared slots through which client threads, the sender thread, the message queue, the
  server's workers and the waiters hand arguments back and forth, for a table of fixed size.

`dafny verify dfyconfig.toml` checks everything.

## How it is organised

| file | content |
|---|---|
| `Bytes`, `Bits` | bytes, little-endian words, xor / shifts / ctz on naturals |
| `Format` | the reference decoder: elements and tags one byte at a time (sections 2.1 and 2.2 of the Snappy compressed format description) |
| `Varint` | the length preamble (section 1): encoder, strict parser, lenient parser |
| `Encoder`, `Emit` | encoding of literals and copies as functions, and the in-place emitters |
| `Match` | longest match, with the 8-byte and 4-byte searches |
| `Fragment`, `FragmentCompressor` | what a block compresses to, for an arbitrary hash; `compress_fragment` itself |
| `Greedy` | what the match search finds: laws that mention neither the scan nor the table |
| `Source`, `Sink`, `Stream`, `Compressor` | byte source and sink, whole streams, `compress` and its entry points |
| `BlockStarts` | how `compress` walks over a vector of pieces, and how it ends, in terms of piece lengths |
| `OverlapCopy`, `Output` | overlapping copies and the decoder's writer |
| `TagTable`, `Decompressor`, `Uncompressor` | lookup table, tag loop with its stitching buffer, entry points |
| `Surplus` | bytes behind a complete stream |
| `RoundTrip` | compress followed by uncompress, flat and in pieces |
| `RequestQueue` | the linked-list priority queue |
| `SlotProtocol`, `SlotInvariant` | the slot protocol as a state machine over single steps, and its invariant |
| `SlotTheorems`, `SlotOrder` | safety, exactly-once delivery, progress, and order within a priority |
| `SlotHistory` | delivery, waits, priorities and order against the steps that a run has taken |
| `SlotSearch` | when a call that looks for a slot can find one |

Buffers that the C code updates are arrays, structures with state are classes, and each loop is a
loop. Long C functions are cut at their own comments (`compress_fragment` into scan / take match /
advance table / main loop, `decompress_all_tags` into literal and copy tags). Shifts and masks are
written as `/`, `%` and `*` on naturals, except where the bits matter (match finder, hash). `hide`
statements only keep definitions away from the solver where a proof does not need them.

The main results:

1. `Stream.CompressedRoundTrip` with `Compressor.SnappyCompress` and `Uncompressor.SnappyUncompress`:
   inputs survive compression and decompression if and only if they are shorter than 2^31 bytes.
2. `Fragment.ElementsMeanBlock`: this does not depend on the hash function. `Greedy.ElementsCover`,
   `EqualBytes` and `FirstRepeatTaken`: what the match search must find, and that copies are as long as
   possible.
3. `Decompressor.State.DecompressAllTags` and `Uncompressor.InternalUncompress`: the table-driven,
   word-at-a-time, piecewise decoder accepts exactly what the byte-at-a-time reference accepts and
   never writes past the declared length; how the input is split does not matter, except that an empty
   piece may be taken for its end. `Surplus.SurplusBytes`: what bytes behind a complete stream do.
4. `Stream.CompressedSize`, the array bounds of `Compressor.Compress` and the frame of
   `Compressor.SnappyCompress`: the documented buffer size covers the output and every transient write
   behind it.
5. `BlockStarts.EndingIff` with `Compressor.Compress`: for every vector of pieces and every announced
   length, exactly when `compress` succeeds, fails, or never ends.
6. `SlotTheorems.SlotSafety`, `ServerOwnsSlot`, `EveryScheduleFinishes`, `SlotHistory.JoinReturns`,
   `JoinCanReturn`, `ReceivedAsSubmitted` and `SlotOrder.ReceiveTakesBest`: in every interleaving each
   slot has one owner, unlocked server writes are safe, each wait gets the result of each of its calls
   once, no waiter gets stuck, nothing submitted is lost, and the workers receive the best message, in
   submission order within a priority. `SlotSearch.SearchEndsIff`: exactly when a search for a slot can
   end.

## Where the code differs from its comments

* The comment on match skipping says that the distance between lookups grows after every 32 bytes; it
  grows after every 32 lookups, so that it reaches j bytes only 1 + 16 j (j - 1) bytes after a match
  (`Greedy.ProbeDistance`).
* The comment on `compress_fragment` asks for room for the maximum compressed length of the block.
  In a buffer of the documented size that room is missing only for the first block, exactly when the
  input has fewer than 65538 bytes, and by at most three bytes (`Stream.DocumentedRoomIff`;
  `Stream.OneByteInput` is the smallest case). What the code needs, `FragmentCompressor.Space`
  (n + n/60 + 18), is always there (`Stream.RoomForBlock`).
* `compress` keeps the announced length in an `int`. From 2^31 bytes on it still returns 0, but the
  stream then never decodes to the input (`Compressor.StreamForIff`).
* A source that holds fewer bytes than announced is reported with -EIO only if it ends between two
  blocks. If it ends inside a block, the gathering loop never ends: a turn on an exhausted source
  changes nothing (`BlockStarts.OutcomeFor`, `Compressor.StarvedTurns`).
* The scatter-gather `peek` takes an empty piece for the end of the input, which is right exactly when
  empty pieces stand at the end of the vector (`Source.UpToEmptyIsAll`).
  * `compress` gathers over empty pieces, but fails with -EIO when a block starts on one; behind a
    gathered block it passes one, because it skips no bytes there (`BlockStarts.Blocked`,
    `BlockStarts.EndingIff`, `BlockStarts.HiddenBehindBlock`).
  * The decoder may stop at an empty piece and then decides by the bytes before it
    (`Uncompressor.SnappyUncompressIov`); one that cuts the preamble makes a good stream fail
    (`Uncompressor.EmptyPieceInFront`).
* `snappy_uncompress_iov` never looks at its `input_len`. Bytes behind a stream that is complete within
  that length make the call fail, unless they are literals whose length wraps to zero
  (`Surplus.SurplusBytes`; `Surplus.OneByteTooMany` is the smallest case). The scatter-gather test
  passes its output buffers at full length, so whether it succeeds depends on what lies behind the
  stream in the last one (`RoundTrip.VerifyPieces`).
* The scatter-gather source counts in an `int`: skipping to an offset of 2^31 or more inside a piece
  fails the check in `skip` and ends the process (`Source.SkipCheck`). With a first piece that long
  this happens on every run with a readable preamble (`Uncompressor.SnappyUncompressIov`).
* The preamble reader of the decoder drops the bits of a fifth byte above 15, while
  `snappy_uncompressed_length` refuses such a preamble (`Varint.ParsersCompared`).
* A four-byte literal length of 2^32 - 1 wraps to an empty literal. `Format.PlainDecode` is the decoder
  without the wrap; on streams below 2^32 bytes the two part exactly where the code accepts a stream
  with such a header (`Format.DecodersCompared`).
* The scatter-gather `sink_peek` compares the piece number with the length of the piece; the model
  keeps that test. Pieces with at least as many bytes as there are pieces are never refused for it
  (`Sink.Writer.Peek`).
* `find_shared_entry` searches for ever while every slot belongs to a call that nobody waits for
  (`SlotSearch.SearchEndsIff`); such a state is reached (`SlotSearch.StarvingReached`).

## Model

| member | source | states |
|---|---|---|
| `Match.FindMatchLength64` | include/snappy-c/snappy.c:716-759 | the 8-byte search with ctz of the xor returns the byte-at-a-time longest common prefix bounded by the limit, without reading past it |
| `Match.FindMatchLength32` | include/snappy-c/snappy.c:761-787 | the 4-byte variant returns the same value, on either endianness branch |
| `Match.MatchLengthIsLongest` | include/snappy-c/snappy.c:703-714 | that value is the largest n for which the n bytes at both positions agree |
| `Match.FirstDifferingByte` | include/snappy-c/snappy.c:743-747 | for any two different words of equal length, ctz(xor) / 8 is the index of the first differing byte |
| `Varint.Encode32` | include/snappy-c/snappy.c:187-220 | each of the five size classes writes the base-128 encoding, in 1..5 bytes, and nothing else; the buffer needs only the bytes the value takes |
| `Varint.Parse32WithLimit` | include/snappy-c/snappy.c:143-185 | accepts exactly the terminated varints of at most five bytes whose value fits 32 bits, and stops behind them |
| `Varint.RoundTrip` | include/snappy-c/snappy.c:143-220 | both parsers read every 32-bit value back from its encoding, whatever follows, and stop at its end |
| `Varint.ShortestEncoding` | include/snappy-c/snappy.c:187-220 | no varint with the same value is shorter than the encoder's |
| `Varint.ParsersCompared` | include/snappy-c/snappy.c:179-181 | whenever the strict parser accepts the lenient one agrees; they differ if and only if four continuation bytes are followed by a fifth byte in 16..127 |
| `Encoder.LiteralRoundTrip` | include/snappy-c/snappy.c:546-589 | for every length 1..2^31 the reference decoder reads the encoded literal back exactly and consumes exactly its bytes |
| `Encoder.ShortestLiteral` | include/snappy-c/snappy.c:546-589 | no encoding that the reference decoder reads as the same literal is shorter |
| `Encoder.ShortCopyRoundTrip` | include/snappy-c/snappy.c:591-610 | one copy tag of either form is read back with its offset and length, in fewer bytes than it copies |
| `Encoder.ShortestCopyTag` | include/snappy-c/snappy.c:591-610 | no tag that the reference decoder reads as the same copy is shorter |
| `Encoder.CopyYields` | include/snappy-c/snappy.c:612-635 | the tags of a split copy, decoded in any context, act as one overlapping copy of the whole length |
| `Encoder.CopySize` | include/snappy-c/snappy.c:612-635 | a copy of length len takes at most len - 1 bytes |
| `Encoder.EncodeAllYields` | include/snappy-c/snappy.c:511-516 | decoding an encoded element list, whatever follows it, is applying the elements in order |
| `Emit.EmitLiteral` | include/snappy-c/snappy.c:546-589 | leaves exactly the literal's encoding, with or without the 16-byte fast path, whose overrun stays below op + 17; nothing before op changes |
| `Emit.EmitShortCopy` | include/snappy-c/snappy.c:591-610 | leaves exactly the 2- or 3-byte tag of a copy of length 4..64 |
| `Emit.EmitCopy` | include/snappy-c/snappy.c:612-635 | the 64 / 60 / remainder loop leaves exactly the split encoding and writes nothing else |
| `FragmentCompressor.TableChecks` | include/snappy-c/snappy.c:857-860 | the entry checks of compress_fragment hold for every power-of-two table size, and every hash value is a table index |
| `FragmentCompressor.LoadAtOffset` | include/snappy-c/snappy.c:789-818 | a 32-bit word cut out of an eight-byte load equals the load at that offset |
| `FragmentCompressor.FindCandidate` | include/snappy-c/snappy.c:905-926 | the scan with cached hashes and growing skips finds the same candidate and leaves the same table as the specification, with every entry at or below ip |
| `FragmentCompressor.AdvanceTable` | include/snappy-c/snappy.c:965-987 | the table update behind a copy (one eight-byte load, three hashes) agrees with the specification's next step |
| `FragmentCompressor.TakeMatch` | include/snappy-c/snappy.c:953-966 | the match is measured in full and emitted as the specification's copy; output so far stays within 61/60 of the input covered |
| `FragmentCompressor.MainLoop` | include/snappy-c/snappy.c:876-988 | literals and copies come out as specified until the margin is reached, only the closing literal being left, and no write leaves the block's room |
| `FragmentCompressor.EmitMatches` | include/snappy-c/snappy.c:948-982 | the chain of copies emitted is the specification's, and the output stays within 61/60 of the input covered |
| `FragmentCompressor.CompressFragment` | include/snappy-c/snappy.c:851-997 | for every block of at most 65536 bytes and a zeroed table the output is the encoding of the specified elements (which `Greedy.ElementsCover` describes), and every write, transient ones included, stays within n + n/60 + 18 bytes |
| `Fragment.ElementsMeanBlock` | include/snappy-c/snappy.c:493-509 | for every hash function into the table and every earlier output, the elements of a block append exactly the block; copies never reach before it |
| `Fragment.ElementsSize` | include/snappy-c/snappy.c:511-532 | all elements are legal and 60 times the encoded size is at most 61 n + 60 |
| `Greedy.ElementsCover` | include/snappy-c/snappy.c:876-988 | for every block and hash: only the last element can be a literal without a copy behind it; a literal before a copy ends at a lookup of the skipping search; copies are as long as possible; a run of five equal bytes ends a literal when the search meets it and continues a copy that ends inside it |
| `Greedy.EqualBytes` | include/snappy-c/snappy.c:905-960 | 17 to 65536 equal bytes become one literal byte and one copy for all the rest, whatever the hash |
| `Greedy.EqualBytesSize` | include/snappy-c/snappy.c:612-635 | such a block takes about three bytes for every 64 |
| `Greedy.FirstRepeatTaken` | include/snappy-c/snappy.c:905-960 | with a hash that tells the words up to there apart, the first repetition of four bytes among the first 33 positions ends the first literal and becomes a copy of the longest match at that distance |
| `Greedy.ProbeDistance` | include/snappy-c/snappy.c:893-916 | lookup 32 j of a search lies 1 + 16 j (j + 1) bytes behind the last copy |
| `Stream.TableSizeLegal` | include/snappy-c/snappy.c:684-701 | the table size is a power of two from 2^8 to 2^14, covers every block that 2^14 entries can cover, and beyond 2^8 is less than twice the block |
| `Compressor.GetHashTable` | include/snappy-c/snappy.c:684-701 | picks that size by doubling, zeroes exactly that many entries and leaves the rest of the table alone |
| `Stream.CompressedRoundTrip` | include/snappy-c/snappy.c:1302-1378 | the reference decoder turns the compressed form of every input below 2^32 bytes, empty and multi-block ones included, back into the input |
| `Stream.PreambleAndBlocks` | include/snappy-c/snappy.c:1302-1378 | any preamble in front of the blocks of x is accepted if and only if it states the length of x, and then gives x |
| `Stream.CompressedSize` | include/snappy-c/snappy.c:533-536 | the compressed form never exceeds 32 + n + n/6 bytes |
| `Stream.DocumentedRoomIff` | include/snappy-c/snappy.c:836-849 | block k of an input below 2^31 bytes finds the room that the comment asks for if and only if k > 0 or the input has at least 65538 bytes; it never lacks more than three bytes |
| `Stream.OneByteInput` | include/snappy-c/snappy.c:836-849 | a one-byte input in a buffer of 33 bytes leaves 32 where 33 are asked for |
| `Stream.RoomForBlock` | include/snappy-c/snappy.c:1302-1378 | behind a preamble of up to five bytes and any full blocks, the documented size still holds the next block and its overrun |
| `Stream.BlocksAppend` | include/snappy-c/snappy.c:1314-1369 | full blocks are compressed independently of what follows them: the blocks of a concatenation are the concatenated blocks |
| `BlockStarts.EndingIff` | include/snappy-c/snappy.c:1314-1372 | the loop succeeds if and only if the source holds what it announces and no block start is blocked; it never ends if and only if the source is too short, ends inside a block, and no block start is blocked; otherwise -EIO |
| `BlockStarts.AfterDirectBlock` | include/snappy-c/snappy.c:1324-1372 | behind a block read in place the reader sees nothing exactly at the end of the vector or at an empty piece |
| `BlockStarts.AfterGatheredBlock` | include/snappy-c/snappy.c:1330-1372 | behind a gathered block, after the skip of no bytes, the reader sees nothing exactly at the end of the vector or at two empty pieces in a row |
| `BlockStarts.EndingByLength` | include/snappy-c/snappy.c:1314-1349 | with empty pieces at the end only, the outcome depends on the number of bytes alone: -EIO if and only if a source that is too short holds a multiple of 65536 bytes |
| `BlockStarts.HiddenBehindBlock` | include/snappy-c/snappy.c:1316-1320 | a block, an empty piece and more bytes: -EIO after one block, although the same bytes without the empty piece are compressed |
| `Compressor.GatherTurn` | include/snappy-c/snappy.c:1335-1343 | one turn copies the next stretch behind the bytes collected so far; on an empty piece it takes nothing and turns to the next piece, and at the end of the vector it changes nothing |
| `Compressor.StarvedTurns` | include/snappy-c/snappy.c:1335-1343 | after any number of turns on an exhausted source the block is as incomplete as before |
| `Compressor.GatherBlock` | include/snappy-c/snappy.c:1330-1347 | a block spread over any pieces, empty ones included, is collected byte for byte and the source advances by exactly the block; it gets complete if and only if the source holds it |
| `Compressor.ReadBlock` | include/snappy-c/snappy.c:1314-1372 | the next block is the next bytes of the source, in place or gathered, and the reader stands where the closing skip leaves it; a source that shows nothing is reported, one that ends inside the block leaves the code in its loop |
| `Compressor.CompressBlock` | include/snappy-c/snappy.c:1351-1369 | in place or through the scratch buffer, exactly the block's bytes are appended; in the flat build nothing outside the block's room changes |
| `Compressor.CompressBlocks` | include/snappy-c/snappy.c:1314-1373 | for every vector: the blocks go out in order until the loop ends, or does not end, as the piece lengths determine |
| `Compressor.Compress` | include/snappy-c/snappy.c:1302-1378 | for any vector, any output pieces and any announced length: preamble and blocks are appended and counted, with outcome 0, -EIO or an endless loop as determined by the piece lengths; no check of skip fails; in the flat build every write stays within the documented size |
| `Compressor.StreamForIff` | include/snappy-c/snappy.c:1306-1314 | on a source that holds what it announces the outcome is 0 if and only if no block is blocked; the stream decodes to the input if and only if besides the length is below 2^31 |
| `Compressor.FailureRefused` | include/snappy-c/snappy.c:1318-1349 | what a failed or endless call leaves behind is never accepted by the decoder |
| `Compressor.SnappyCompress` | include/snappy-c/snappy.c:1501-1518 | for every input and a buffer of the documented size: returns 0 and a length within the bound, touches nothing behind that size, and leaves a stream that decodes to the input if and only if it is below 2^31 bytes |
| `Compressor.SnappyCompressIov` | include/snappy-c/snappy.c:1382-1406 | for every input vector and any output pieces, the appended bytes are those of the flat result up to where the piece lengths end the loop, and `written` agrees |
| `Sink.Writer.Append` | include/snappy-c/snappy.c:275-293 | data spilling over several output pieces extends the contents by exactly the data; the piece index stays in range while room is left; with one piece nothing else in it changes |
| `Sink.Writer.Peek` | include/snappy-c/snappy.c:295-301 | the flat build always offers to write in place; otherwise an offer means that the current piece can take n bytes, a refusal in spite of that room means that the piece is not longer than its number, and pieces at least as long as the vector are offered exactly when they have the room |
| `Source.Reader.Skip` | include/snappy-c/snappy.c:256-265 | drops exactly n bytes of what is left, across piece boundaries, whatever the vector, and records whether the check on the `int` offset fails |
| `Source.Reader.Peek` | include/snappy-c/snappy.c:243-254 | for every vector: the stretch reported is the front of what is left; it is empty exactly when the bytes before the next empty piece are used up, which is the end of the input or an empty piece with the rest behind it |
| `Source.UpToEmptyIsAll` | include/snappy-c/snappy.c:243-254 | reading up to the first empty piece gives all bytes if and only if empty pieces stand at the end of the vector |
| `Source.SkipCheck` | include/snappy-c/snappy.c:256-260 | the check after advancing inside a piece passes if and only if the offset stays below 2^31 |
| `OverlapCopy.IncrementalCopyFastPath` | include/snappy-c/snappy.c:421-435 | for every distance and length at least 1 the bytes equal those of the byte-at-a-time copy, and at most ten bytes behind them change |
| `OverlapCopy.IncrementalCopy` | include/snappy-c/snappy.c:378-384 | every byte written equals the byte one distance before it, and nothing else changes |
| `OverlapCopy.RepeatsDetermines` | include/snappy-c/snappy.c:386-419 | two buffers that agree before the copy and repeat at the same distance agree on it: fast path and slow path leave the same bytes |
| `Format.CopyOutUnique` | include/snappy-c/snappy.c:365-377 | a buffer that keeps the old output and repeats at the distance is the reference copy, so all copy routines agree |
| `Format.CopyOutRepeats` | include/snappy-c/snappy.c:365-377 | conversely every byte of the reference copy equals the byte one offset before it |
| `Format.HeadersCompared` | include/snappy-c/snappy.c:1159-1165 | the 32-bit length arithmetic changes a header if and only if the tag 0xfc is followed by four bytes 0xff |
| `Format.DecodersCompared` | include/snappy-c/snappy.c:1150-1184 | on streams below 2^32 bytes the code's decoder differs from the format's if and only if it accepts a stream with such a header at an element boundary; the format then rejects |
| `Format.WrapExample` | include/snappy-c/snappy.c:1159-1165 | the five bytes 0xfc 0xff 0xff 0xff 0xff decode to nothing in the code and are rejected by the format |
| `Output.Writer.AppendFromSelf` | include/snappy-c/snappy.c:437-464 | all three branches append the reference copy below the limit; refused exactly when the offset is 0, reaches before the output, or the length does not fit |
| `Output.Writer.CopyTwice` | include/snappy-c/snappy.c:446-450 | two 8-byte copies at a distance of at least eight leave a correct overlapping copy of sixteen bytes |
| `Output.Writer.Append` | include/snappy-c/snappy.c:466-476 | appends exactly the bytes if they fit and changes nothing otherwise |
| `Output.Writer.TryFastAppend` | include/snappy-c/snappy.c:478-491 | succeeds if and only if len <= 16, sixteen bytes are available and the room is between 16 and 2^31 - 1; then exactly len bytes are appended although sixteen were copied; never writes at or past the limit |
| `TagTable.CharTableOk` | include/snappy-c/snappy.c:1023-1056 | all 256 entries give the length, high offset bits and extra-byte count that the format describes |
| `TagTable.CopyHeader` | include/snappy-c/snappy.c:1186-1203 | table, mask and four-byte load together read the copy header of the format, whatever lies in the bytes behind the tag |
| `TagTable.LongLiteralHeader` | include/snappy-c/snappy.c:1159-1165 | mask and load read the long literal length, with the wrap of 2^32 to 0 |
| `Decompressor.State.RefillTag` | include/snappy-c/snappy.c:1210-1275 | afterwards the next tag is complete and five bytes can be loaded, the unread bytes being the same; it fails only where the input ends or an empty piece stands, between two tags (eof) or inside one |
| `Decompressor.State.NextPiece` | include/snappy-c/snappy.c:1172-1179 | skipping the peeked bytes and peeking again drops exactly the buffered bytes; zero means the end of the input or an empty piece |
| `Decompressor.State.SaveToScratch` | include/snappy-c/snappy.c:1260-1269 | moving the last bytes of a piece to the scratch buffer, even from the scratch buffer itself, leaves the unread bytes unchanged |
| `Decompressor.State.Stitch` | include/snappy-c/snappy.c:1237-1259 | a tag cut by piece boundaries is completed from the following pieces without reading more than it needs; fails only where the input ends or an empty piece stands inside the tag |
| `Decompressor.State.AppendLiteral` | include/snappy-c/snappy.c:1167-1184 | a literal over any number of pieces is appended and consumed exactly; failure means that the room is too small or that the input ends, or an empty piece stands, inside the literal |
| `Decompressor.State.TakeStretch` | include/snappy-c/snappy.c:1168-1179 | one turn of the literal loop moves everything buffered to the output and turns to the next piece; it fails only if the room is too small or no byte follows before the end or an empty piece |
| `Decompressor.State.LiteralTag` | include/snappy-c/snappy.c:1150-1184 | one literal tag is one step of the reference decoder, or the reference rejects the bytes up to where the input was taken for ended |
| `Decompressor.State.ReadLength` | include/snappy-c/snappy.c:1159-1165 | tag, mask and load read the literal length of the reference header and consume exactly the tag |
| `Decompressor.State.CopyTag` | include/snappy-c/snappy.c:1185-1204 | one copy tag is one step of the reference decoder, or the reference rejects |
| `Decompressor.State.ReadCopy` | include/snappy-c/snappy.c:1186-1203 | table, mask and load read the offset and length of the reference header and consume exactly the tag |
| `Decompressor.State.DecompressAllTags` | include/snappy-c/snappy.c:1120-1206 | for every vector there is a place (the end, or an empty piece) such that the run ends with eof and the reference's output for the bytes before it, or the reference fails on them or exceeds the limit; nothing outside the limit is written |
| `Format.DecodeGrows` | include/snappy-c/snappy.c:466-476 | decoding only appends, so an overrun can never be made good later |
| `Uncompressor.ReadUncompressedLength` | include/snappy-c/snappy.c:1087-1112 | for every vector of pieces: reads the lenient varint, and fails exactly when the bytes before the first empty piece hold none |
| `Uncompressor.InternalUncompress` | include/snappy-c/snappy.c:1277-1300 | for every vector: returns 0 if and only if the reference accepts, within the maximum, the bytes before the end or before some empty piece, with its output; no run writes past the declared length; a preamble cut by an empty piece gives -EIO and no output; a check of skip fails on every readable stream with a first piece of 2^31 bytes, and never if all pieces are shorter |
| `Uncompressor.SnappyUncompress` | include/snappy-c/snappy.c:1532-1543 | the same for one flat buffer |
| `Uncompressor.SnappyUncompressIov` | include/snappy-c/snappy.c:1446-1459 | the same at the entry point; with empty pieces only at the end the result depends only on the concatenation; a stream complete within `input_len` is accepted if and only if only literals of wrapped length follow; one long piece ends the process exactly if its preamble is readable |
| `Source.NothingMissed` | include/snappy-c/snappy.c:243-254 | with empty pieces at the end only, the input is never taken for ended before its end |
| `Surplus.SurplusBytes` | include/snappy-c/snappy.c:1446-1459 | behind an accepted stream any bytes make the decoder fail, except for literals whose length wraps to zero, which change nothing |
| `Surplus.DecodesToNothing` | include/snappy-c/snappy.c:1150-1206 | tags add nothing to the output if and only if they are such literals |
| `Surplus.OneByteTooMany` | include/snappy-c/snappy.c:1446-1459 | the stream 0 is accepted, the stream 0 0 is not |
| `Uncompressor.EmptyPieceInFront` | include/snappy-c/snappy.c:1087-1112 | an empty piece in front leaves the bytes of any vector the same and hides their preamble, so that a good stream is refused |
| `Uncompressor.SnappyUncompressedLength` | include/snappy-c/snappy.c:645-656 | accepts exactly strict preambles and then agrees with the length the decoder will use |
| `RoundTrip.VerifyFlat` | include/snappy-c/verify.c:37-56 | compress then uncompress gives error 0 and the input, for every input below 2^31 bytes |
| `RoundTrip.VerifyPieces` | include/snappy-c/sgverify.c:145-182 | the test as it stands: the used output buffers at full length go to the decoder, which returns 0 if and only if the bytes behind the stream in the last one are literals of wrapped length; then the input is restored |
| `RoundTrip.VerifySplit` | include/snappy-c/snappy.c:1382-1459 | for every input vector without a blocked block, any output buffers and every split of exactly the stream: error 0 and the input |
| `RequestQueue.PriorityQueue.Enqueue` | src/api/api.c:54-78 | the list stays finite, unshared and ordered; the request goes behind every one of at least its priority |
| `RequestQueue.PriorityQueue.Link` | src/api/api.c:67-75 | linking between two neighbours, or at the head, inserts exactly one node and keeps the rest of the chain |
| `RequestQueue.PriorityQueue.Dequeue` | src/api/api.c:80-98 | hands out the head, which precedes every other request present; -1 exactly on the empty queue |
| `RequestQueue.RunOk` | src/api/api.c:54-98 | over every run: ordered; the requests that the run enqueues, numbered in their order, have each left once or wait once; equal priorities leave in that order |
| `RequestQueue.RunList` | src/api/api.c:54-98 | any run of the linked list holds and hands out what the run of the specification does |
| `RequestQueue.DequeueTakesBest` | src/api/api.c:80-98 | after any run, a dequeue takes the oldest request of the highest priority present |
| `SlotInvariant.ClaimKeeps` | src/api/api.c:396-404 | a call that finds a free slot becomes its single owner, and the slot holds its argument |
| `SlotInvariant.SubmitKeeps` | src/api/api.c:478-506 | handing a claimed request to the queue puts exactly one request with the call's index and priority under way |
| `SlotInvariant.SendKeeps` | src/api/api.c:100-112 | forwarding to the message queue neither loses nor duplicates a request |
| `SlotInvariant.WorkerStage` | src/server/server.c:110-128 | a busy worker's request addresses the slot of its own call, which is used, not done, and holds what this worker has left there so far |
| `SlotInvariant.MarkDoneKeeps` | src/server/server.c:125-127 | the mark in the slot ends the request's way and counts one service |
| `SlotInvariant.PollingOwner` | src/api/api.c:438-462 | a waiter that polls for an unfilled output looks at a slot owned by its own call; done means that this call was served |
| `SlotInvariant.PollKeeps` | src/api/api.c:438-462 | a poll frees the slot of the waiter's own call, and only when it is done |
| `SlotInvariant.StepKeeps` | src/api/api.c:380-535 | every step of every thread keeps the protocol invariant |
| `SlotInvariant.ReachableInv` | src/api/api.c:380-535 | the invariant holds in every state of every interleaving from the initial table |
| `SlotTheorems.SlotSafety` | src/api/api.c:380-462 | free slot: not done, nobody points at it; used and not done: exactly one outstanding request; done: used, none outstanding |
| `SlotTheorems.WorkersApart` | src/server/server.c:130-168 | two busy workers never share a slot |
| `SlotTheorems.ServerOwnsSlot` | src/server/server.c:110-128 | while a worker is busy with a request no step of any other thread changes its slot, although it writes without the lock |
| `SlotTheorems.DeliveryUnchanged` | src/api/api.c:438-462 | what a poll delivers is what the server had left when it set done |
| `SlotTheorems.ServedOnce` | src/server/server.c:145-163 | every request is served at most once, and exactly when its slot was marked done |
| `SlotTheorems.UnderWayOnce` | src/api/api.c:100-112 | a submitted, unfinished request is in exactly one place between queue and worker; any other request in none |
| `SlotTheorems.OutputsFilled` | src/api/api.c:514-535 | when the polling loop ends every output was filled exactly once with the outcome recorded for its call, which was served once |
| `SlotHistory.JoinReturns` | src/api/api.c:514-535 | for every run: when the loop of a wait ends, each output that the caller asked for has been filled once with the argument which that call was made with, unchanged if the server gave up on it and with the path and suffix otherwise, and the call was marked done once |
| `SlotHistory.CallsAndWaits` | src/api/api.c:414-436 | in every state the arguments and priorities of the calls, and the calls of each wait, are those which the run's steps gave, in order |
| `SlotHistory.CallsTold` | src/server/server.c:56-98 | every finished call holds its own argument if the server gave up on it, and its path with the suffix otherwise |
| `SlotHistory.JoinCanReturn` | src/api/api.c:523-530 | sender, workers and its own loop can make every wait return with all that it was asked for |
| `SlotTheorems.NeverOutOfRange` | src/server/server.c:110-114 | all slot indices used by workers, searching calls and waiters lie in the table |
| `SlotTheorems.ForwardingEnds` | src/server/server.c:130-168 | every step of the sender or a worker lowers a rank, so forwarding cannot go on for ever |
| `SlotTheorems.NoDeadlock` | src/api/api.c:100-112 | while a request is under way some sender or worker step can be taken |
| `SlotTheorems.ForwardingBounded` | src/server/server.c:130-168 | every run of sender and workers, of any length, lowers the rank by at least its number of steps |
| `SlotTheorems.SubmittedCallsFinish` | src/api/api.c:100-112 | from every reachable state the sender and the workers alone can bring every submitted call to its result |
| `SlotTheorems.EveryScheduleFinishes` | src/api/api.c:100-112 | under every schedule sender and workers stop after at most rank many steps, and when they stop every submitted call has its result |
| `SlotTheorems.WaiterCanReturn` | src/api/api.c:464-535 | from every reachable state finitely many steps of sender, workers and its own loop make a waiter return |
| `SlotOrder.StepOrder` | src/api/api.c:54-112 | every step keeps queue, sender, message queue and workers in order within each priority |
| `SlotOrder.ReceivedInOrder` | src/api/api.c:54-112 | in every reachable state the workers have received requests of equal priority in submission order, and the next one is the best in the message queue |
| `SlotOrder.ReceiveTakesBest` | src/server/server.c:145-150 | in every reachable state a receive takes the oldest message of the highest priority, gives it to the worker, and leaves the rest |
| `SlotOrder.TakeHeadTakesBest` | src/api/api.c:80-112 | in every reachable state the sender takes the oldest request of the highest priority |
| `SlotHistory.ReceivedAsSubmitted` | src/api/api.c:54-112 | for every run: what was submitted is queued, in hand, in the message queue or received, each once; received requests carry the number of their submission and come in that order within a priority |
| `SlotHistory.PriorityCarried` | src/api/api.c:100-112 | every request under way carries the priority that its caller gave |
| `SlotHistory.PrioritiesInRange` | src/api/api.c:419-422 | no request with a priority above 31 is ever under way |
| `SlotOrder.MessagesBounded` | src/api/api.c:154 | in every reachable state the message queue holds at most ten messages |
| `SlotSearch.LooksFind` | src/api/api.c:387-409 | with a free slot in the table the search finds one within one round |
| `SlotSearch.SearchStarves` | src/api/api.c:387-409 | while every slot belongs to a call without a waiter, no schedule without a new wait ends a search |
| `SlotSearch.SearchEndsIff` | src/api/api.c:380-412 | in every reachable state a searching call can get its slot without a new wait if and only if some slot is free or belongs to a call that somebody waits for |
| `SlotSearch.StarvingReached` | src/api/api.c:380-412 | a state in which a call searches for ever is reached, with one slot and two calls |

## Left out

- File reading and writing in `compress_service`; only its effect on the slot's argument (path copied, suffix appended, or unchanged on an error) is modelled, without the 150-byte limit of the path fields.
- Growing the shared table (`resize_shm` on both sides): the model is the configuration in which the maximum size equals the initial size, so the call returns at once.
- Client registration, the server's client list, shutdown, time-outs and back-off sleeping; the message queue is reliable, bounded to ten messages and ordered by priority.
- The counters `num_requests_started` and `num_requests_completed`, used only when a client is torn down.
- Request ids are natural numbers: the wrap of the `int` counter after 2^31 requests is not modelled.
- Threads interleave between lock-protected steps, so the slot table is a value in each protocol state instead of an array updated in place; the search, the poll and the join loop are steps of that machine.
- Big-endian and 32-bit builds, apart from the 4-byte match finder.
- Waiting: a call is waited for by its request id and at most once. The interface waits by slot index, so waiting twice for the same index, or after the slot has been given to another call, is not modelled; `SlotHistory.JoinReturns` rests on this.
- Uncompressor.SnappyUncompressIov: pieces of 2^32 bytes or more are excluded, since the decoder counts buffered bytes in 32 bits. At which empty piece between others the decoder stops is not determined in terms of piece lengths: it depends on where tags fall, since a skip of no bytes passes an empty piece.
- Uncompressor.SnappyUncompress: inputs of 2^32 bytes or more are excluded for the same reason.
- RoundTrip.VerifyPieces: output buffers are below 2^31 bytes, and empty ones stand at the end, as the test makes them; what the output holds after -EIO is not stated.
- Allocation of the environment; the scatter-gather environment is assumed to have both scratch buffers.
- The command-line, benchmark and helper programs.
