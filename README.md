# yanconv in Dafny

A model of `yanconv.cpp`, the image conversion core of yanderegllib, with
proofs about it. The class `YandereImage` holds an image as a byte vector
with its width, height and bytes per pixel (`bpp`). It reads PNG files,
writes PNG, PGM and PPM files, and changes the image in place (flip,
grayscale, change of pixel size). Its own zlib/DEFLATE code does the
compression:

- `yan_deflate`, despite its name, is the **decoder**. It checks the zlib
  header and decodes stored, fixed-Huffman and dynamic-Huffman blocks
  (RFC 1950, RFC 1951).
- `yan_inflate` is the **encoder**. It writes stored blocks of 255 bytes and
  a four-byte trailer.
- `png_read` walks the chunks of a PNG file, inflates the IDAT data and
  undoes the scanline filters of section 9 of the PNG specification
  (W3C Recommendation, second edition).
- `png_save` writes IHDR, IDAT and IEND chunks with their CRC-32.

The model has one module per part of the source:

| module | models |
|---|---|
| `Bytes`, `Raster` | bit and byte arithmetic (`>>`, `<<`, masks, C's truncating `/`, big-endian words); rows of a raster laid end to end |
| `Text` | `stringSplit` and `can_parse` |
| `Prefix` | `lengthsToPrefix`: the canonical Huffman code of section 3.2.2 of RFC 1951 |
| `BitCursor` | the cursor `i`/`bitOffset` of the decoder and its lambdas `shiftOffset`, `shiftOffsets`, `readForward` |
| `InflateSpec` | the whole decoder as functions over an absolute bit position. A result is `Ok(value, position)`, or `Fault` where the C++ reads past the input or otherwise has undefined behaviour |
| `LzTables` | the length and distance computations of the decoder, with their correction loops, proved equal to the tables of section 3.2.5 of RFC 1951 |
| `FixedCodes` | the fixed-Huffman classifier of the decoder against the code table of section 3.2.6 of RFC 1951 |
| `CodeLoops`, `Decoder` | the decoder's loops as methods with loop invariants, each proved equal to its `InflateSpec` function |
| `InflateProps` | properties of the decoder: header checks, stored blocks, back references, code lengths, and soundness and completeness of Huffman decoding |
| `Adler`, `Encoder` | `yan_inflate`, its trailer sums on 32-bit `int`s, and the round trip through the decoder |
| `Crc` | `crc_table_gen` and the chunk CRC loop of `png_save`, proved to be the bitwise CRC-32 |
| `Unfilter` | the filter switch of `png_read`, which works in place on an `array`, proved to invert filtering |
| `Png` | the chunk walk of `png_read` and the file `png_save` writes, with the PNG round trip |
| `Pixels`, `PixelLoops` | the pixel index, grayscale, `bpp_resize`, flip and the PGM/PPM files, with their loops |
| `Image` | the class `YandereImage`, whose methods change its fields in place |

## Model

| member | source | states |
|---|---|---|
| Text.FindIsFirst | yanconv.cpp:19-25 | `find` gives the first occurrence of the delimiter, or -1 exactly when there is none |
| Text.StringSplit | yanconv.cpp:15-31 | the split loop returns `Split(s, d)`: the text before each delimiter, then the rest |
| Text.JoinSplit | yanconv.cpp:15-31 | joining the pieces with the delimiter gives the string back |
| Text.SplitJoin | yanconv.cpp:15-31 | splitting inverts joining pieces that hold no delimiter |
| Text.PiecesAreClean | yanconv.cpp:15-31 | no piece contains the delimiter |
| Text.PieceCount | yanconv.cpp:15-31 | there is one more piece than there are delimiters |
| Text.CanParseMatchesRead | yanconv.cpp:1765-1775 | `can_parse` accepts an extension exactly when `read` dispatches on it, with or without its dot |
| Bytes.BigEndian4Bytes | yanconv.cpp:33-59 | `cAToNumber` of four bytes on a little-endian host is their big-endian value |
| Bytes.Be32RoundTrip | yanconv.cpp:1227-1236 | the four bytes written for a 32-bit field read back, big-endian, as the field |
| Bytes.TruncDiv | yanconv.cpp:455 | `int` division truncates toward zero: the remainder `a - d*q` has the sign of `a` and is smaller than `d` in absolute value |
| Prefix.LengthsToPrefix | yanconv.cpp:61-99 | returns, for every symbol, `CanonicalCode` (the code of step 3 of RFC 1951 section 3.2.2, counted with the source's `uint8_t` counters; `maxVal` for length 0), and the largest length |
| Prefix.CountLengths | yanconv.cpp:66-79 | the counting loop: `countsArr[len]` is the number of symbols of length `len` modulo 256 (0 for length 0), and `maxBitLength` is the maximum |
| Prefix.FirstCodes | yanconv.cpp:78-85 | `codeLengths[l]` is the first code of length `l`, for every `l` up to the maximum |
| Prefix.AssignCodes | yanconv.cpp:87-96 | every symbol gets the next code of its length, so the result is the canonical code |
| Prefix.MaxLengthIsMax | yanconv.cpp:69-76 | the highest length bounds every length and is one of them |
| Prefix.CodesAscend | yanconv.cpp:87-96 | two symbols of the same length get codes that ascend in symbol order, as far apart as the symbols of that length between them |
| Prefix.CodesConsecutive | yanconv.cpp:87-96 | with no symbol of that length between them, the codes are consecutive |
| Prefix.FirstSymbolGetsFirstCode | yanconv.cpp:81-96 | the first symbol of a length gets that length's first code |
| Prefix.RankBelowCount | yanconv.cpp:87-96 | the symbols of a length before a symbol are fewer than all the symbols of that length |
| Prefix.FirstCodeDominates | yanconv.cpp:81-85 | the first code of a longer length, shifted back, lies past every code of a shorter length |
| Prefix.PrefixFree | yanconv.cpp:61-99 | the code is prefix-free: no code is the leading bits of a longer one (while the counts fit the `uint8_t` counters) |
| Prefix.RfcExample | yanconv.cpp:61-99 | on the example of RFC 1951 section 3.2.2 (lengths 3,3,3,3,3,2,4,4) the codes are 010, 011, 100, 101, 110, 00, 1110, 1111 |
| BitCursor.Bit | yanconv.cpp:158 | `(inputData[i] >> bitOffset) & 1` is bit number `8*i + bitOffset` of the stream |
| BitCursor.ShiftOffset | yanconv.cpp:151 | `shiftOffset` moves the cursor one bit forward, carrying into the byte index |
| BitCursor.ShiftOffsets | yanconv.cpp:150 | `shiftOffsets(num)` moves the cursor `num` bits forward |
| BitCursor.ReadForward | yanconv.cpp:152 | `readForward(num)` is the next `num` bits of the stream, least significant first, for every offset |
| BitCursor.ReadForwardParts | yanconv.cpp:152 | the two masked parts of `readForward` (current byte, next byte) make up the next `num` bits |
| BitCursor.CrossByteBits | yanconv.cpp:152 | a read that crosses a byte boundary is the rest of the current byte followed by the low bits of the next one |
| InflateSpec.ReadBit | yanconv.cpp:158-164 | a bit read is defined exactly when the bit is inside the input, and it is that bit |
| InflateSpec.ReadLsb | yanconv.cpp:478-482 | an extra-bits loop is defined exactly when the bits are in the input; it consumes `n` bits and yields an `n`-bit value |
| InflateSpec.ReadMsb | yanconv.cpp:638-644 | the five-bit distance loop of fixed blocks is defined exactly when its bits are in the input; it consumes `n` bits and yields an `n`-bit value |
| InflateSpec.ReadForwardStep | yanconv.cpp:152 | `readForward` is defined exactly when the next byte exists (the lambda always reads it), and then yields the next `num` bits |
| InflateSpec.AlignedByte | yanconv.cpp:172-173 | skipping the partial byte moves to the first byte boundary at or after the cursor |
| InflateSpec.ReadClens | yanconv.cpp:209-221 | the 19 code-length code lengths: HCLEN+4 groups of three bits, then zeros; defined exactly when the bytes `readForward` touches exist |
| InflateSpec.CopyPair | yanconv.cpp:533-538 | a length/distance copy is defined exactly when the length is not positive or the distance lies within the output |
| InflateSpec.CodeLengthRun | yanconv.cpp:250-284 | a code-length symbol appends `RunValue` repeated (itself, the previous length for 16, zero for 17 and 18); symbol 16 needs a previous length |
| InflateSpec.FirstIndex | yanconv.cpp:240-248 | the search gives the first index holding the value (no earlier index holds it), or the length of the vector |
| InflateSpec.LookUp | yanconv.cpp:417-427 | a symbol found by the lookup has the length and the code sought |
| InflateSpec.BuildCode | yanconv.cpp:287-289 | `lengthsToPrefix` is applied exactly when the source's demands on the lengths hold (otherwise the C++ writes outside `countsArr`) |
| Decoder.Deflate | yanconv.cpp:113-678 | the whole decoder (header check, then the block loop) returns `Inflate(data)` |
| Decoder.BlockLoop | yanconv.cpp:156-675 | `while (!lastBlock)` returns `Blocks` from its start |
| Decoder.BlockStep | yanconv.cpp:156-198 | one turn of the block loop agrees with `Blocks` and consumes input |
| Decoder.BlockHeaderBits | yanconv.cpp:158-164 | BFINAL and the two BTYPE bits, low bit first, read exactly when three bits remain |
| Decoder.BlocksCutShort | yanconv.cpp:158-164 | fewer than three bits left: the header read runs past the input (undefined) |
| Decoder.ReservedBlockType | yanconv.cpp:193-196 | BTYPE 3 returns what was decoded so far |
| Decoder.BlockBody | yanconv.cpp:170-548 | the body of a block of type 0, 1 or 2 is `Block` |
| Decoder.StoredCopy | yanconv.cpp:170-187 | the stored-block branch (align, LEN little-endian, skip NLEN, copy) is `Stored` |
| Decoder.CopyBack | yanconv.cpp:533-538 | the copy loop appends `len` bytes, each `dist` back: `BackCopy` |
| Decoder.PairCopy | yanconv.cpp:533-538 | the copy of a pair is `CopyPair`, undefined for a distance outside the output |
| Decoder.FixedPairDecode | yanconv.cpp:609-671 | a fixed-block length symbol with its extra bits, distance and copy is `FixedPair` |
| Decoder.DynPairDecode | yanconv.cpp:454-538 | a dynamic-block length symbol with its extra bits, distance symbol and copy is `DynPair` |
| Decoder.FixedSymbols | yanconv.cpp:551-672 | the `while (true)` loop of a fixed block is `FixedBlock` |
| Decoder.DynamicSymbols | yanconv.cpp:405-548 | the symbol loop of a dynamic block is `DynSymbols` |
| Decoder.MakeCode | yanconv.cpp:61-99 | builds the code `BuildCode` describes, or none where the lengths break the source's demands |
| Decoder.DynamicBlockDecode | yanconv.cpp:198-227 | HLIT, HDIST, HCLEN and the permuted code-length code lengths, then the rest: `DynamicBlock` |
| Decoder.DynamicCodesDecode | yanconv.cpp:226-548 | the two code-length loops, the two codes and the symbol loop: `DynamicCodes` |
| CodeLoops.TakeBit | yanconv.cpp:236-237 | reading a bit and `shiftOffset()` is `ReadBit` at `8*i + bitOffset` |
| CodeLoops.ShiftBitIn | yanconv.cpp:234-238 | shifting the next bit into the accumulator (64-bit when it wraps) gives the value of one more bit, and the cursor moves one bit |
| CodeLoops.FindCode | yanconv.cpp:240-248 | the `lci` loop returns the first index whose code equals the bits read, or 19 |
| CodeLoops.ClenSymbol | yanconv.cpp:234-250 | the bit loop of a code-length symbol (64-bit `readingBits`, 8-bit `currCodeLength`) finds `ClenSearch` over the prefixes at `p` |
| CodeLoops.CodeLengthsRound | yanconv.cpp:250-284 | one symbol of the code-length loop consumes input and leaves `CodeLengths` of the rest, the count reduced modulo 2^32 |
| CodeLoops.CodeLengthsLoop | yanconv.cpp:234-285 | the loop `for (; codesLengthTotal != 0; ...)` (and its copy at 295-346) returns `CodeLengths` |
| CodeLoops.LookUpLoop | yanconv.cpp:417-427 | the `cci` loop over the symbols of the current length (its count kept in `uint_fast8_t`) returns `LookUp` |
| CodeLoops.SymbolLoop | yanconv.cpp:405-429 | the Huffman bit loop of a dynamic block (and the distance loop at 486-509) returns `Symbol` |
| CodeLoops.MsbFirstNext | yanconv.cpp:405-407 | shifting left and or-ing the next bit gives the value of one more bit, most significant first |
| InflateProps.HeaderWordIsBigEndian | yanconv.cpp:129-136 | the header word is `cAToNumber` of CMF, FLG, 0, 0 |
| InflateProps.HeaderCheckIsRfc | yanconv.cpp:129-142 | the source's check of that word by 31 accepts exactly the headers RFC 1950 accepts (`CMF*256 + FLG` divisible by 31) |
| InflateProps.HeaderRejected | yanconv.cpp:117-142 | a bad method, window size or check returns empty output |
| InflateProps.HeaderAccepted | yanconv.cpp:144-156 | a good header starts the block loop at the third byte |
| InflateProps.ReservedTypeStops | yanconv.cpp:193-196 | a block of type 3 ends decoding with what was decoded so far |
| InflateProps.StoredBlockAppends | yanconv.cpp:170-187 | a stored block is defined exactly when LEN can be read and its LEN bytes follow, and then appends exactly those bytes |
| InflateProps.StoredBlockStep | yanconv.cpp:156-187 | a byte-aligned stored block with header byte 0 or 1 appends its data and either ends or continues after it |
| InflateProps.BackCopyContents | yanconv.cpp:533-538 | a copy keeps the earlier output, and every new byte equals the byte `dist` before it |
| InflateProps.BackCopyRepeatsTail | yanconv.cpp:533-538 | with a distance shorter than the length, the copy repeats the last `dist` bytes periodically |
| InflateProps.PermuteInvertsOrder | yanconv.cpp:224 | the reordering puts the `k`-th length sent at symbol `ClenOrder[k]` |
| InflateProps.ClenOrderIsPermutation | yanconv.cpp:224 | the order names each of the 19 symbols exactly once |
| InflateProps.CodeLengthCodeLengths | yanconv.cpp:209-224 | the lengths of the symbols sent are the three-bit groups read; the others are 0 |
| InflateProps.CodeLengthRunCounts | yanconv.cpp:250-280 | symbols 0-15 add one length, 16 adds 3-6, 17 adds 3-10, 18 adds 11-138 |
| InflateProps.ClenRoundAppends | yanconv.cpp:250-284 | one code-length symbol keeps the lengths collected so far and appends as many as it counts |
| InflateProps.CodeLengthsBelow16 | yanconv.cpp:234-285 | every code length the loops produce is below 16 |
| InflateProps.CodeLengthsKeepPrefix | yanconv.cpp:234-285 | the loops keep the lengths already collected |
| InflateProps.CodeLengthsUnfold | yanconv.cpp:234-285 | one pass of the loop, then the loop over the rest with the count reduced modulo 2^32 |
| InflateProps.CodeLengthsCount | yanconv.cpp:234-285 | the loops produce `total` more lengths modulo 2^32 (the unsigned count wraps when a run overshoots) |
| InflateProps.CodeLengthsExact | yanconv.cpp:198-285 | when fewer than 2^32 lengths come out, exactly the HLIT+257 (or HDIST+1) asked for come out |
| InflateProps.SymbolSearchFinds | yanconv.cpp:405-429 | a symbol found after `n` bits has length `n` and code the `n` bits read |
| InflateProps.SymbolDecodes | yanconv.cpp:405-429 | soundness: a decoded symbol's length is the number of bits consumed, and its code is those bits (modulo 2^64 where the accumulator wraps) |
| InflateProps.LitSymbolDecodes | yanconv.cpp:405-429 | for codes of at most 15 bits, a literal/length symbol's code is exactly the bits read |
| InflateProps.DistSymbolDecodes | yanconv.cpp:486-509 | a distance symbol's code is exactly the bits read |
| InflateProps.LookUpFinds | yanconv.cpp:360-427 | in a code built by `lengthsToPrefix`, looking up a symbol's own code at its own length finds that symbol |
| InflateProps.LookUpMisses | yanconv.cpp:360-427 | the leading bits of a longer symbol's code match no symbol of the shorter length |
| InflateProps.SymbolSearchComplete | yanconv.cpp:405-429 | trying lengths upward over the leading bits of a symbol's code finds that symbol at its length |
| InflateProps.SymbolComplete | yanconv.cpp:405-429 | completeness: where the bits at `p` are the code of symbol `s`, decoding gives `s` and consumes exactly its length |
| InflateProps.LitSymbolComplete | yanconv.cpp:405-429 | every literal/length code of at most 15 bits at `p` decodes to its symbol |
| InflateProps.DistSymbolComplete | yanconv.cpp:486-509 | every distance code at `p` decodes to its symbol |
| FixedCodes.RfcFixedCode | yanconv.cpp:551-607 | the fixed code of each symbol has 7 to 9 bits (table of RFC 1951 section 3.2.6) |
| FixedCodes.FixedCodeDecodesAsWritten | yanconv.cpp:551-607 | the classifier as written reads a symbol's fixed code back exactly when the symbol is not one of 144-147 |
| FixedCodes.Literal144Misread | yanconv.cpp:562-578 | where the stream holds the code of literal 144, the source reads symbol 288 after 8 bits; the corrected reader reads 144 after 9 |
| FixedCodes.Literal144Stream | yanconv.cpp:562-578 | such a stream exists: bytes 0x13, 0x00 |
| FixedCodes.FixedCodeRoundTrip | yanconv.cpp:551-607 | with `> 0xc7` in place of `> 0xc8`, every symbol's code is read with exactly its length and gives the symbol back |
| FixedCodes.FixedSymbolReadsCode | yanconv.cpp:551-607 | the corrected reader reads every fixed code in a stream as its symbol |
| FixedCodes.FixedSymbolAgrees | yanconv.cpp:562 | the two readers differ only where the first seven bits are 1100100 |
| FixedCodes.FixedSymbolAsWrittenReadsCode | yanconv.cpp:551-607 | the reader as written decodes every fixed code outside 144-147 correctly |
| LzTables.MoverLoop | yanconv.cpp:470-474 | the correction loop `readLength += (moverVal+1-4*mli)*(1<<mli)` sums `MoverSum` |
| LzTables.MoverTermsIsSum | yanconv.cpp:470-474 | the loop's terms, added in loop order, are the Horner form `MoverSum` |
| LzTables.MoverSumClosed | yanconv.cpp:470-474 | the correction in closed form |
| LzTables.DynLengthFollowsRule | yanconv.cpp:454-476 | the dynamic length computation gives the base and extra bits of the regular length rule for symbols 257-285 |
| LzTables.DynDistanceFollowsRule | yanconv.cpp:506-519 | the dynamic distance computation gives the base and extra bits of the regular distance rule for symbols 0-29 |
| LzTables.LengthCodesAgree | yanconv.cpp:609-630 | the fixed-block and dynamic-block length computations agree on every symbol the fixed decoder can produce |
| LzTables.DistanceCodesAgree | yanconv.cpp:646-658 | the fixed and dynamic distance computations agree on every five-bit code |
| LzTables.DynLengthMatchesRfc | yanconv.cpp:454-482 | dynamic blocks decode lengths by the table of RFC 1951 section 3.2.5 |
| LzTables.FixedLengthMatchesRfc | yanconv.cpp:609-636 | fixed blocks decode lengths by that table |
| LzTables.DynDistanceMatchesRfc | yanconv.cpp:506-525 | dynamic blocks decode distances by that table |
| LzTables.FixedDistanceMatchesRfc | yanconv.cpp:638-664 | fixed blocks decode distances by that table |
| Encoder.FlgMakesMultiple | yanconv.cpp:928-939 | whatever CMF is, the computed FCHECK makes `CMF*256 + FLG` a multiple of 31 |
| Encoder.HeaderIsZlib | yanconv.cpp:922-940 | the header written is 0x78 0x01, which the decoder's header check accepts |
| Encoder.StoredBlocksUnfold | yanconv.cpp:958-1009 | the blocks from `i` on: a header with LEN 255 (or the exact length when corrected), up to 255 input bytes, then the rest |
| Encoder.Encode | yanconv.cpp:918-1121 | the whole encoder (header, block loop, checksum loop) returns `Encoded(input)` |
| Encoder.CopyRange | yanconv.cpp:1005-1008 | the copy loop appends `input[from..to]` |
| Encoder.SumsLoop | yanconv.cpp:1103-1112 | the checksum loop on 32-bit `int`s with truncating `%` returns `SourceSums` |
| Encoder.SourceRoundTrip | yanconv.cpp:918-1121 | the decoder gives back any nonempty input whose length is a multiple of 255 from the stream `yan_inflate` writes |
| Encoder.FullBlocksAreExact | yanconv.cpp:965-1001 | when every block is full, LEN 255 is exact, so the source's blocks are the corrected ones |
| Encoder.EmptyInputUnreadable | yanconv.cpp:965-1001 | for the empty input the only block claims 255 bytes the stream does not hold |
| Encoder.RfcRoundTrip | yanconv.cpp:918-1121 | with exact LEN fields the decoder gives back every input |
| Encoder.EncodedLength | yanconv.cpp:958-1118 | the stream is at most six bytes per input byte plus eleven |
| Adler.Adler32 | yanconv.cpp:1103-1118 | Adler-32 of RFC 1950 section 8.2, both sums below 65521 |
| Adler.Signed | yanconv.cpp:1103-1104 | a 32-bit pattern read as a two's-complement `int`: in the `int` range and congruent modulo 2^32 |
| Adler.TruncRem | yanconv.cpp:1110-1111 | C++ `%` on `int`: dividend = divisor * truncated quotient + remainder, the remainder taking the dividend's sign |
| Adler.SourceSums | yanconv.cpp:1103-1112 | the sums `adlerSum1`, `adlerSum2` as 32-bit patterns |
| Adler.Trailer | yanconv.cpp:1114-1118 | the four trailer bytes: the low 16 bits of s2, then of s1 |
| Adler.SourceFirstSum | yanconv.cpp:1103-1110 | `adlerSum1` is one plus the byte sum, wrapped at 32 bits and never reduced by 65521 |
| Adler.SourceSecondSum | yanconv.cpp:1103-1111 | while `adlerSum1` stays below 65521, `adlerSum2` is the unreduced s2 wrapped at 32 bits |
| Adler.SourceSumsAreAdler | yanconv.cpp:1103-1118 | while s2 stays below 65521 the source writes Adler-32 |
| Adler.OnesSums | yanconv.cpp:1103-1112 | the sums of `n` bytes 0xFF in closed form |
| Adler.TrailerDiffers | yanconv.cpp:1103-1118 | for 23 bytes 0xFF the trailer written differs from the Adler-32 trailer |
| Crc.CrcTableGen | yanconv.cpp:1123-1147 | 256 entries, entry `i` being `i` put through eight bit steps of polynomial 0xEDB88320 |
| Crc.TableStep | yanconv.cpp:1283-1286 | the table step `table[(crc ^ b) & 0xff] ^ (crc >> 8)` equals eight bit steps on `crc ^ b` |
| Crc.ChunkCrc | yanconv.cpp:1276-1288 | the chunk CRC loop, seeded with all ones and inverted at the end, is the bitwise CRC-32 |
| Crc.BitStepLinear | yanconv.cpp:1134-1140 | one bit step is linear over exclusive or |
| Crc.IterateLinear | yanconv.cpp:1132-1141 | so are eight of them |
| Crc.RegisterAppend | yanconv.cpp:1283-1286 | the CRC register is a fold over the bytes |
| Crc.Crc32Bound | yanconv.cpp:1279-1300 | the CRC fits the four bytes written |
| Crc.KnownEntries | yanconv.cpp:1123-1147 | entry 0 is 0 and entry 128 is the polynomial |
| Unfilter.SubPositive | yanconv.cpp:680-683 | `sub_positive` narrowed to `uint8_t` is addition modulo 256 |
| Unfilter.PaethNearest | yanconv.cpp:862-883 | the Paeth choice is a neighbour nearest to the estimate, the first of left, up, up-left among ties |
| Unfilter.PaethChoice | yanconv.cpp:862-883 | case 4 with its `int` distances and `std::abs` picks `Paeth` |
| Unfilter.ReconIsPredicted | yanconv.cpp:818-889 | every value the switch defines is the filtered byte plus the predictor of its filter type, modulo 256 |
| Unfilter.UnknownFilterUndefined | yanconv.cpp:818-889 | a filter type above 4 matches no case and leaves `pixelData` undefined |
| Unfilter.ReconAt | yanconv.cpp:818-889 | the switch on the array is defined exactly when `Recon` is, and gives its value |
| Unfilter.UnfilterRows | yanconv.cpp:799-894 | the row loop, writing reconstructed bytes back into the array, succeeds exactly when `Unfiltered` of the old contents is defined, and returns it |
| Unfilter.PaletteLoop | yanconv.cpp:803-811 | an indexed row appends three palette bytes per index |
| Unfilter.FilterLoop | yanconv.cpp:814-892 | a filtered row: each value reconstructed, written back and appended |
| Unfilter.NearRestored | yanconv.cpp:851-865 | midway through the loop, the neighbours read are those of the original image |
| Unfilter.ReconRestores | yanconv.cpp:818-889 | midway through the loop, the value reconstructed is the original byte |
| Unfilter.RowRestores | yanconv.cpp:814-892 | the rest of a row and the rows after it restore the image |
| Unfilter.RowsRestore | yanconv.cpp:799-894 | the rows from `y` on restore the rest of the image |
| Unfilter.UnfilterInvertsFilter | yanconv.cpp:799-894 | reconstruction inverts filtering, whatever filter type 0-4 each row uses |
| Png.ValuesPerPixel | yanconv.cpp:748-752 | `valuesPerPixel` is between 1 and 4 |
| Png.PixelBytes | yanconv.cpp:754 | `bpp` is the number of bits of a pixel divided by 8, rounded up |
| Png.TypeOfNames | yanconv.cpp:733-778 | each chunk type is recognised by exactly its four bytes |
| Png.Body | yanconv.cpp:722-723 | a chunk's data is all `len` bytes when the file holds them, fewer otherwise |
| Png.Absorb | yanconv.cpp:733-777 | a chunk other than IEND never changes the image, its width or its height; only IHDR changes `bpp` |
| Png.Finish | yanconv.cpp:778-903 | the IEND branch returns true, keeps `bpp`, and takes width and height from the IHDR |
| Png.WideRowWraps | yanconv.cpp:814 | the row bound `tempWidth*valuesPerPixel` wraps at 2^32: an RGBA image 2^30 pixels wide and one row high reads back as that size with no pixel bytes |
| Png.SignatureUnchecked | yanconv.cpp:689-690 | `png_read` never looks at the signature |
| Png.WalkKeepsImage | yanconv.cpp:711-911 | before IEND only `bpp` changes, wherever the chunk loop stops |
| Png.WalkWithoutEnd | yanconv.cpp:711-911 | without IEND the chunk loop stops by itself |
| Png.FailureKeepsImage | yanconv.cpp:765-772 | returning false (a PLTE of a length not divisible by 3) leaves the image as it was |
| Png.NoEndKeepsImage | yanconv.cpp:711-916 | a file without IEND leaves the image, width and height as they were |
| Png.HeaderBounded | yanconv.cpp:735-755 | the IHDR fields fit their C++ types |
| Png.ReadBounded | yanconv.cpp:685-916 | `png_read` keeps the fields within their C++ types |
| Png.ColourType | yanconv.cpp:1245-1264 | a colour type is written exactly for `bpp` 1 to 4, and it reads back as that many 8-bit values per pixel |
| Png.CrcSpan | yanconv.cpp:1281 | the CRC loop covers `chunkLength + 4` bytes while that fits an `int` |
| Png.Chunk | yanconv.cpp:1276-1300 | a written chunk has its data's length plus 12 bytes |
| Png.Zeros | yanconv.cpp:1207-1208 | every filter type written is 0 |
| Png.PngFile | yanconv.cpp:1149-1306 | the file starts with the PNG signature, and is the signature alone exactly when `bpp` is outside 1 to 4 |
| Png.ChunkLayout | yanconv.cpp:1291-1300 | a written chunk holds its length, type and data where section 5.3 places them |
| Png.ChunkCrcField | yanconv.cpp:1276-1300 | its last four bytes are the CRC-32 of its type and data |
| Png.ChunkHead | yanconv.cpp:1291-1300 | a written chunk reads back as its own length, type and data |
| Png.IhdrReadsBack | yanconv.cpp:1224-1273 | the IHDR written reads back as the width, height, bit depth 8 and colour type |
| Png.ScanlinesUnfilter | yanconv.cpp:1205-1217 | rows with filter type 0 unfilter to the image's bytes |
| Png.ScanlinesLength | yanconv.cpp:1203 | one filter byte per row plus the row's bytes |
| Png.WrittenHeads | yanconv.cpp:1179-1302 | the chunk loop reads the written file as IHDR, IDAT and IEND |
| Png.PngRoundTrip | yanconv.cpp:1149-1306 | reading back the file `png_save` writes restores the image: always with the corrected encoder, and as written when the rows fill whole 255-byte blocks |
| Image.ScanlineRows | yanconv.cpp:1205-1217 | the row loop of the IDAT branch builds `Scanlines`: each row preceded by filter type 0 |
| Image.WriteChunk | yanconv.cpp:1276-1302 | length, type, data and CRC as `Chunk` |
| Image.YandereImage.constructor | yanconv.cpp:101-103 | the default constructor gives an empty image |
| Image.YandereImage.PixelColorPos | yanconv.cpp:1755-1758 | `pixel_color_pos` is the byte of colour `color` of pixel `(x, y)`, inside the image |
| Image.YandereImage.PixelColor | yanconv.cpp:1760-1763 | `pixel_color` is that colour value of that pixel |
| Image.YandereImage.Flip | yanconv.cpp:1694-1711 | `flip` reverses the rows and changes nothing else |
| Image.YandereImage.Grayscale | yanconv.cpp:1477-1504 | `grayscale` leaves a one-byte image alone and otherwise replaces each pixel by the `unsigned` average of its bytes; `bpp` becomes 1 |
| Image.YandereImage.BppResize | yanconv.cpp:1506-1535 | `bpp_resize` cuts or pads every pixel to `desiredBpp` bytes, the new ones `extraChannel` |
| Image.YandereImage.PngSave | yanconv.cpp:1149-1306 | `png_save` writes `PngFile` of the fields |
| Image.YandereImage.PgmSave | yanconv.cpp:1367-1417 | `pgm_save` writes `PgmFile`: nothing unless `bpp` is 1 |
| Image.YandereImage.PpmSave | yanconv.cpp:1419-1475 | `ppm_save` writes `PpmFile`: nothing unless `bpp` is 3 |
| PixelLoops.Position | yanconv.cpp:1757 | the inline index `y*width*bpp + x*bpp + c` is the byte of that colour of that pixel, inside the image |
| PixelLoops.CopyPixel | yanconv.cpp:1703-1706 | the `bppi` loop appends the pixel's bytes |
| PixelLoops.PixelAverage | yanconv.cpp:1491-1498 | the `bppi` loop and the division give the pixel's average |
| PixelLoops.RecolorPixel | yanconv.cpp:1520-1529 | the `bppi` loop of `bpp_resize` appends the pixel cut or padded |
| PixelLoops.CopyRow | yanconv.cpp:1701-1707 | the `x` loop appends row `y` |
| PixelLoops.GrayRow | yanconv.cpp:1489-1499 | the `x` loop of `grayscale` appends the averages of row `y` |
| PixelLoops.RecolorRow | yanconv.cpp:1518-1530 | the `x` loop of `bpp_resize` appends row `y` recoloured |
| PixelLoops.FlipRows | yanconv.cpp:1699-1708 | the loops of `flip` give the rows from last to first |
| PixelLoops.CopyRows | yanconv.cpp:1461-1470 | the loops of `ppm_save` give the image's first `width*height*bpp` bytes |
| PixelLoops.GrayRows | yanconv.cpp:1487-1500 | the loops of `grayscale` give the average of every pixel |
| PixelLoops.RecolorRows | yanconv.cpp:1516-1531 | the loops of `bpp_resize` give every pixel recoloured |
| Pixels.ColorPos | yanconv.cpp:1755-1758 | the position in `unsigned` arithmetic is below 2^32 |
| Pixels.ColorPosAt | yanconv.cpp:1755-1758 | inside an image of at most 2^32 bytes the position does not wrap and lies inside the image |
| Pixels.ColorPosUnique | yanconv.cpp:1755-1758 | distinct colour values of distinct pixels have distinct positions |
| Pixels.SizeIsProduct | yanconv.cpp:1485 | the image size is `height * width * bpp` |
| Pixels.MeanBetween | yanconv.cpp:1491-1497 | the average lies between the pixel's darkest and brightest byte, so it fits a byte |
| Pixels.MeanIsDivision | yanconv.cpp:1497 | the average is the `unsigned` sum divided by `bpp` |
| Pixels.GraysAt | yanconv.cpp:1487-1500 | grey pixel `i` is the average of pixel `i` |
| Pixels.RecoloredAt | yanconv.cpp:1516-1531 | colour value `c` of a recoloured pixel is the pixel's own below the old size, `extraChannel` above it |
| Pixels.RecolorBack | yanconv.cpp:1506-1535 | widening the pixels and narrowing them back gives the image back |
| Pixels.FlippedAt | yanconv.cpp:1699-1708 | byte `j` of row `y` of the flipped image is byte `j` of row `height-1-y` |
| Pixels.FlipTwice | yanconv.cpp:1694-1711 | flipping twice gives the image back |
| Pixels.Decimal | yanconv.cpp:1383-1389 | `std::to_string` gives at least one ASCII digit, with no leading zero |
| Pixels.DecimalRoundTrip | yanconv.cpp:1383-1389 | the digits read back as the number |
| Pixels.PnmReadsBack | yanconv.cpp:1376-1400 | a reader of the header written gets back the magic digit, width, height, maximum 255 and the data |
| Pixels.PgmFile | yanconv.cpp:1367-1417 | a PGM file is written exactly when `bpp` is 1 |
| Pixels.PpmFile | yanconv.cpp:1419-1475 | a PPM file is written exactly when `bpp` is 3 |
| Pixels.PgmReadsBack | yanconv.cpp:1367-1417 | a saved PGM file reads back as the image |
| Pixels.PpmReadsBack | yanconv.cpp:1419-1475 | a saved PPM file reads back as the image |

## Left out

- File and stream I/O: `ifstream`, `ofstream`, `good()`, `seekg`, `read` and `write` become byte sequences in and out. `png_read` takes the file as `seq<byte>`; `png_save`, `pgm_save` and `ppm_save` return the bytes they would write.
- `save_to_file` (yanconv.cpp:1713-1735), and the extension dispatch of `read` beyond what `CanParseMatchesRead` states, are not modelled: they only pick a path extension through `std::filesystem`.
- The path constructor (yanconv.cpp:105-111) is left out: it reads a file and throws on failure.
- `resize` (yanconv.cpp:1537-1692) and `pgm_read` (yanconv.cpp:1308-1365) are not part of this model. PGM and PPM output is instead checked against a reader of the header layout (`Pixels.ReadPnm`).
- Undefined behaviour: an index past a buffer, a copy distance outside the output, a filter type above 4 that leaves `pixelData` uninitialised. Where the input drives it (decoder, `png_read`) it becomes an explicit `Fault`/`Undefined`/`None` outcome, not a precondition.
- Image.YandereImage.Flip, Grayscale, BppResize, PngSave, PpmSave, PixelColorPos, PixelColor: require `width*height*bpp <= 2^32` and that the image holds that many bytes. This stands in for the source's `unsigned` index arithmetic, which wraps beyond that size.
- Bytes.BigEndian4Bytes: `cAToNumber` is modelled for a little-endian host, where its `memcpy` followed by the byte shuffle reads a big-endian number; a big-endian host is not modelled.
- `uint_fast8_t` and `uint_fast16_t` are taken as 8 and 64 bits (the widths on common 64-bit platforms). The wrap of `readingBits` modulo 2^64 and of `currCodeLength` modulo 256 is modelled explicitly.
- Adler.SourceSums: signed overflow of `adlerSum1`/`adlerSum2` is undefined behaviour in C++; the model takes two's-complement wrap-around at 32 bits with truncating `%`.
- `int` loop counters (`i`, `streamPos`, `d`) are unbounded naturals; inputs of 2^31 bytes or more, where they would overflow, are not modelled.
- Png.PngRoundTrip: requires fewer than 2^29 scanline bytes, so that the chunk length, the CRC span and the row bound of `png_read` stay within their `int` and `unsigned` ranges; beyond that the source's wrapped row bound reads the rows back wrongly.
- Case 1 of the encoder (fixed Huffman with its unfinished LZ77 search, yanconv.cpp:1011-1099) is unreachable, because `encodingMethod` is always 0, and is left out.
- `YANTIMINGS` timing code, `printf` and `malloc` failure are left out.
- The CRCs of chunks read are not checked, as in the source (`checkChecksums` does nothing).
- `std::string` is a Dafny `string` of characters for `stringSplit`, with a one-character delimiter; the source's `substr(currDelimPos+1)` skips one character, so only one-character delimiters split as intended.
- The chunk loop of `png_save` is unrolled into its three chunks in `Png.PngFile`; `WriteChunk` models one turn of it.
- CodeLoops.CodeLengthsLoop: the source's single loop, which shifts one bit in per turn, is written as an outer loop over symbols (`CodeLengthsLoop`) and an inner loop over bits (`ClenSymbol`). The bits read, the counters and the outcome are the same.
- InflateProps.SymbolComplete, LitSymbolComplete, DistSymbolComplete: require fewer than 256 symbols of each length up to the code's own. The source's `uint8_t` counters in `lengthsToPrefix` and `uint_fast8_t` lookup sizes wrap beyond that.
- Prefix.PrefixFree: requires the same bound, for the same reason.
- Indeterminate bytes (`bitDepth` and `valuesPerPixel` before any IHDR) are modelled as an absent header, which makes IEND without IHDR undefined.

## Findings

| source | as written | input that shows it | evidently intended | confidence | as-written member | corrected member |
|---|---|---|---|---|---|---|
| yanconv.cpp:562 | the fixed-Huffman classifier tests `checkBits > 0xc8`, so seven bits 1100100 (the first bits of literals 144-147) fall to the 280-287 branch | bytes 0x13 0x00 hold the code of literal 144; the source reads symbol 288 after 8 bits | `checkBits > 0xc7`, so that 144-255 take nine bits | high, proved; not executed | FixedCodes.Literal144Misread | FixedCodes.FixedCodeRoundTrip |
| yanconv.cpp:965-1001 | every stored block gets LEN 255, also the last, shorter one | any input whose length is not a multiple of 255, e.g. the empty input: its block claims 255 bytes the stream does not hold | LEN is the number of bytes in the block (`maxBound - i`) | high, proved; not executed | Encoder.EmptyInputUnreadable | Encoder.RfcRoundTrip |
| yanconv.cpp:1103-1118 | the trailer sums are never reduced modulo 65521 (only the summands are), so the trailer is not Adler-32 | 23 bytes 0xFF: s2 before reduction is 70,403 and the trailer written differs from Adler-32 | `adlerSum1 = (adlerSum1 + b) % 65521; adlerSum2 = (adlerSum2 + adlerSum1) % 65521` | high, proved; not executed | Adler.TrailerDiffers | Adler.Adler32 |
