# Verification of the compression, hashing, parsing and wavelet cores

This Dafny project models the cores of the repository that other code relies on without being able to check
them, and proves what they are for. Every model takes the form of its source: cursors, buffers and contexts
that are updated in place are arrays and classes, and their methods are proved against plain reference
functions, about which the properties are then stated.

- **LZ4 blocks** (`Lz4Format`, `Lz4Copy`, `Lz4Compress`, `Lz4Greedy`, `Lz4Decompress`, `Lz4RoundTrip`). The
  reference is a decoder that reads the format byte by byte. The fast compressor, for an arbitrary hash function, is
  proved to write a valid block of its source within the published size, and the one its search rule determines; the
  fast decompressor, with its fast loop, shortcut and overlapping copies, to produce on every valid block what the
  reference produces.
- **LZ4 HC** (`Lz4HcIndex`, `Lz4HcSearch`, `Lz4HcPrices`, `Lz4HcOptimal`, `Lz4HcRounds`). Following the 16-bit chains
  is complete; the match search is genuine and gets as far as its attempts allow, and its two shortcuts (leaps over
  repeated bytes and changes of chain) lose no longer match. In the price table of the optimal parser no price rises,
  no step is priced too low, and no way is left dearer than a match found makes it; its blocks are valid and those of
  rounds from match to match.
- **LZ4 frames** (`FrameFormat` to `FrameStream`, and `FrameExamples`). Decoder and encoder are state machines over
  slices of any size. Runs of the one are undone by runs of the other, within the bounds the library publishes; what
  the encoder writes is determined, and what the decoder asks for next is stated.
- **xxHash** (`XxHash32`, `XxHash64`, and published values in `XxHash32Values` and `XxHash64Values`). Streaming agrees
  with the one-shot hash for every way of cutting the input, and no step of the hash loses anything.
- **The bit-plane coder** (`ZfpBits` to `ZfpTileCases`). The group-testing coder can be interrupted at any bit.
  It is proved lossless over any number of chunks, embedded, and bounded. The loops that drive it, exponents
  included, are proved to write the stream the coefficients determine, and to restore a tile except in two cases,
  each characterised and shown to occur.
- **picojson** (`JsonText` to `JsonValues`, and `JsonExamples`). The parser over its one-character-pushback cursor
  refines a grammar on text, stops where a refused text says it should, and inverts the printer.
- **Wavelet subbands and filters** (`Subbands`, `SubbandTools`, `Filters`, `FilterNorms`). When subbands partition the
  lattice and when aggregates restore it is stated exactly, numbers and levels correspond, the filter cascade is a
  product of polynomials, and the norms of its functions are known in closed form.

Integers are unbounded; 32- and 64-bit totals, 16-bit table slots and clipped deltas are written out where
they are stored. Addresses are positions in a buffer. A hash function, a block compressor and the reading of
numbers are parameters that the theorems quantify over. Filters are over the reals.

## What was found

- `ZfpTileCases.LonelyCoefficientIsLost`: when the last plane of a tile that is coded is cut right behind the
  group bit of coefficient 63, the resumed call writes no bit, no further chunk is written, and the reader
  stops before setting that coefficient. Eight blocks of 32-bit floats in chunks of 10 bytes are such a tile
  (`LonelyTile`).
- `ZfpTileCases.HeadersTrip`: the reader advances to the next chunk only while it decodes a plane. Where an
  exponent, or the bit of an insignificant block, fills a chunk and no plane follows it in its block, the next
  exponent is read behind the end of the chunk. Nine blocks just at the tolerance in chunks of 9 bytes are such a tile.
- `ZfpTileCases.TileRoundTrip`: a tile comes back exactly if neither happens.
- `ZfpTileCases.FirstBlockIsNotShown`: when the stream ends exactly with a chunk, the jump to `END`
  (src/mg_file_format.cpp:533-534) leaves the other blocks decoded but not transformed back; `AllShownIff` says
  when, and two blocks of zeros in a chunk of 8 bytes show it (`ZerosTile`).
- A flag `In` that is never cleared is harmless: a call entered inside a group ends inside a group, or
  finishes the plane (`ZfpPlane.CallStops`). A plane may therefore be spread over any number of chunks.
- `FrameRuns.AbandonedFrame`: `LZ4F_resetDecompressionContext` keeps `frameRemainingSize`; after abandoning a
  frame that announced its size, a valid frame that announces none is refused at its end
  (`FrameRuns.EmptyFrameRefused` is the smallest pair). Without an abandoned frame (`Sound`), no valid frame is refused.
- `FrameEncoder.BoundIs`: the published bound covers blocks that do not compress exactly if their number is less
  than 2^32, and is too small otherwise. `FrameEncoder.CountedUpTo` gives the sizes: with flushing, up to
  2^32 - 1 times the block size. Larger sizes (`FrameEncoder.BoundWraps`) are outside the contracts of `Update` and `CompressFrame`.
- `XxHash64.State.Digest`: the 64-bit total also decides whether the lanes are used. Once it has wrapped to less
  than 32, the digest is the hash only if the third lane happens to give what all lanes together give.
- `SubbandTools.AggregateIsDomain`: provided directions of one sample come last, the last aggregate is the domain
  exactly if no other direction comes down to one sample before the last level. Already two samples and two levels
  fail (`SparseIsBuilt`, `EmptySubbandSpoilsAggregate`).
- `Subbands.SubbandsPartitionDomain`: a direction of one sample in front of a longer one makes subbands miss samples.
- `FrameDecoder.DCtx.AsksTooMuch`: with block checksums the decoder may ask for four bytes more than the frame has left: for a
  compressed block partly set aside, the checksum is in the length already and is added once more
  (src/lz4/lz4_all.c:5371-5373).
- `Lz4HcPrices.CountedBehind`: a literal entered behind a match takes over the count of the literals in front of that
  match (src/lz4/lz4_all.c:3651-3661), so that what is recorded can be more than the run. Prices are sizes where the
  counts on the way are right (`PathIsPriced`).

## Model

| member | source | states |
|---|---|---|
| `Lz4Format.MatchCopyUnique` | src/lz4/lz4_all.c:1922-1946 | The byte-wise LZ77 copy `op[i] = op[i - offset]` is the only extension of the output that repeats with period `offset`: any faster copy with that property is the same copy. |
| `Lz4Format.ReadExtInverts` | src/lz4/lz4_all.c:1574-1593 | The length bytes the encoder writes (255s, then the rest) are summed back to the length, wherever they stand in the block. |
| `Lz4Format.ParseInvertsEncode` | src/lz4/lz4_all.c:961-1036 | An encoded sequence is parsed back as its literals, offset and match length, and ends where it was written to end. |
| `Lz4Format.SpelledBlockIsValid` | src/lz4/lz4_all.c:1101-1127 | Encoded sequences that spell a text, followed by closing literals, decode to that text and keep the end-of-block rules (last 5 bytes literal, no match started in the last 12). |
| `Lz4Copy.FarCopyRepeats` | src/lz4/lz4_all.c:333-352 | Copying from any whole number of periods back continues the repetition, which is why the source of the copy may be moved away from `op - offset`. |
| `Lz4Copy.CopyFirst8` | src/lz4/lz4_all.c:1922-1946 | After the `inc32table`/`dec64table` moves the first 8 bytes repeat with period `offset`, for every offset from 1 on, earlier bytes are unchanged, and the source of the copy is a whole number of periods (8 bytes or more) back. |
| `Lz4Copy.MemcpyUsingOffset` | src/lz4/lz4_all.c:367-396 | The 1/2/4-byte pattern fill and the table-driven copy both produce the repetition with period `offset` up to the end asked for, write nothing before the match and nothing past the announced overshoot. |
| `Lz4Copy.WildCopy8` | src/lz4/lz4_all.c:304-312 | 8 bytes at a time, possibly past the end: the repetition is continued, bytes before and past the overshoot are unchanged. |
| `Lz4Copy.WildCopy32` | src/lz4/lz4_all.c:355-365 | Two 16-byte halves a turn are right from offset 16 on. |
| `Lz4Compress.CommonBytesStop` | src/lz4/lz4_all.c:456-527 | The trailing zero bytes of the xor of two words are exactly their equal leading bytes. |
| `Lz4Compress.Count` | src/lz4/lz4_all.c:528-552 | The run found 8, 4, 2 and 1 bytes at a time is the whole run of equal bytes: it ends at the limit or at a difference. |
| `Lz4Compress.FindMatch` | src/lz4/lz4_all.c:871-928 | The match returned is at the first position of the accelerating schedule whose last namesake in the table has the same four bytes within 65535 bytes; every position looked at is recorded, none of those before would have done, and a match starts outside the last 12 bytes. |
| `Lz4Compress.NextMatch` | src/lz4/lz4_all.c:1042-1093 | Right after a match two positions are recorded and the next one is taken up exactly if its last namesake will do. |
| `Lz4Compress.CatchUp` | src/lz4/lz4_all.c:931-932 | Widening a match backwards keeps it a match with the same offset, and goes on to the last literal emitted, the start or a difference. |
| `Lz4Compress.WriteMatch` | src/lz4/lz4_all.c:977-1036 | Offset and match length (four 255s stored at a time, the low part added to the token written earlier) are exactly the bytes of the format. |
| `Lz4Compress.SameIsMatchCopy` | src/lz4/lz4_all.c:996-1006 | A genuine match in the source is what the LZ77 copy of the decoder will produce. |
| `Lz4Compress.SequenceSize` | src/lz4/lz4_all.c:934-1036 | A sequence is no longer than the bytes it stands for, up to one byte in 255 literals. |
| `Lz4Compress.EmitMatch` | src/lz4/lz4_all.c:961-1036 | A match is made as long as it will go, up to the last 5 bytes, and the sequence emitted is that of the pending literals, its offset and its length. |
| `Lz4Compress.MatchCompletes` | src/lz4/lz4_all.c:961-1036 | Completing the pending literals with a genuine match keeps the invariant of every step: the output encodes the source so far within 1/255 of its size. |
| `Lz4Compress.EmitMatches` | src/lz4/lz4_all.c:961-1095 | The `_next_match` loop keeps that invariant over any number of matches, and no store leaves the worst-case buffer. |
| `Lz4Compress.EmittedThenLast` | src/lz4/lz4_all.c:1101-1127 | With the closing literals the output is a valid block of the source, at most n + n/255 + 2 bytes. |
| `Lz4Compress.CompressGeneric` | src/lz4/lz4_all.c:770-1136 | For every source, hash function, acceleration and index table type: 0 is returned exactly for unsupported sizes, otherwise the block is valid for the source, at most n + n/255 + 2 bytes, all stores staying inside a buffer of `LZ4_compressBound` bytes. The bytes are those of the matches found and the closing literals; each match is the next usable one of the schedule, widened both ways as far as it goes, with the table as the positions looked at have left it; and the literals close the block only where the schedule has no usable position outside the last 12 bytes. |
| `Lz4Greedy.GreedyIsOne` | src/lz4/lz4_all.c:770-1136 | There is one way only to cut a source into matches by that rule, so the block is determined by source, hash function, acceleration and table. |
| `Lz4Greedy.UniformIsOneMatch` | src/lz4/lz4_all.c:770-1136 | Of a run of one byte that is one literal and one match at offset 1 up to the last 5 bytes, and the size of the block is stated: 11 bytes for 64 zeros. |
| `Lz4Decompress.InputRemains` | src/lz4/lz4_all.c:1666-1675 | While 5 bytes of content are missing from a valid block, at least 6 bytes of input remain, so the margins the decoder checks never refuse a valid block. |
| `Lz4Decompress.ReadVariableLength` | src/lz4/lz4_all.c:1574-1593 | The length read is that of the format; the loop error is raised exactly when reading stops at or past the check position. |
| `Lz4Decompress.ReadLiteralLength` | src/lz4/lz4_all.c:1830-1837 | For literals the loop error is rightly ignored: the length is the right one although reading may stop at the check. |
| `Lz4Decompress.CopyMatch` | src/lz4/lz4_all.c:1922-1972 | Label `safe_match_copy`: the match is the byte-wise copy also where it ends within 12 bytes of the buffer. |
| `Lz4Decompress.Shortcut` | src/lz4/lz4_all.c:1789-1828 | The two-stage shortcut lands where the slow path would: behind the whole sequence, or before its match length. |
| `Lz4Decompress.FastLoop` | src/lz4/lz4_all.c:1656-1780 | From the start of a valid block, the fast loop is left at a place from which the safe loop still owes exactly the missing content. |
| `Lz4Decompress.DecompressSafe` | src/lz4/lz4_all.c:1600-1985 | On every valid block the fast loop, shortcut, safe loop and last-literals exit together produce the content that the byte-wise decoder assigns; a destination without room succeeds exactly for the block [0]. |
| `Lz4RoundTrip.RoundTrip` | src/lz4/lz4_all.c:1139-1159 | Compressing with a fresh table and decompressing into a buffer of just the source size gives the source back, for every source of supported size, hash function, table type and acceleration. |
| `Lz4RoundTrip.HcRoundTrip` | src/lz4/lz4_all.c:3528-3800 | The same for the optimal parser of LZ4 HC, for every number of searches and setting. |
| `Lz4HcIndex.HcIndex.Insert` | src/lz4/lz4_all.c:2429-2447 | Every insertion keeps the index valid: heads are the latest positions, links skip no position with their key, although slots are 16 bits wide and deltas are clipped. |
| `Lz4HcIndex.HcIndex.Restart` | src/lz4/lz4_all.c:2411-2425 | A new source behind the old one (or after clearing) starts with a valid index without clearing the tables. |
| `Lz4HcIndex.CandidatesAre` | src/lz4/lz4_all.c:2661 | `Candidates` is exactly the positions in reach with a key, in decreasing order. |
| `Lz4HcIndex.ChainIsComplete` | src/lz4/lz4_all.c:2429-2447 | Following hash table and chain from any key visits exactly those candidates, for every state that insertions can reach. |
| `Lz4HcIndex.FirstIsLatest` | src/lz4/lz4_all.c:2429-2447 | The first candidate is the head of the chain, and there is one exactly if the head is in reach. |
| `Lz4HcSearch.CountBack` | src/lz4/lz4_all.c:2451-2464 | The backward extension is the whole run of equal bytes before the two positions. |
| `Lz4HcSearch.CountPattern` | src/lz4/lz4_all.c:2468-2496 | The forward pattern length is exact: the pattern goes on for `n` bytes and stops there or at the end. |
| `Lz4HcSearch.ReverseCountPattern` | src/lz4/lz4_all.c:2501-2516 | The backward pattern length is exact, never below the limit. |
| `Lz4HcSearch.TryCandidate` | src/lz4/lz4_all.c:2563-2583 | The two-byte test, the four-byte test and the comparison together: what is longer is a genuine match, and no match through this candidate is longer than what is returned. |
| `Lz4HcSearch.SelectChain` | src/lz4/lz4_all.c:2604-2614 | The position selected is the first with the longest link of all positions in the match. |
| `Lz4HcSearch.LeapInside` | src/lz4/lz4_all.c:2632-2640 | Leaping to the place of a repeated-byte segment where as much of the run is left as at `ip` overlooks nothing that this place will not yield. |
| `Lz4HcSearch.LeapBehind` | src/lz4/lz4_all.c:2641-2655 | Leaping behind the segment after taking its length without comparison overlooks nothing longer. |
| `Lz4HcSearch.Search` | src/lz4/lz4_all.c:2560-2663 | What is found is genuine, for every search: equal bytes over the length, inside [iLowLimit, iHighLimit), offset 1 to 65535, also when the length came from pattern analysis or another chain. For every number of attempts from one on, no match through the head of the chain is longer (unless it is too close for a fast decoder); with n attempts none through the last n positions is, nor, without chain swap, through the first n candidates; and with an attempt for every position in the window none in reach. The latter hold where speed of decoding is not favoured, and matches start at `ip` (as in the optimal parser) or patterns are not analysed; chain swap loses nothing either way. |
| `Lz4HcSearch.WiderMatch` | src/lz4/lz4_all.c:2522-2695 | The whole function, which first inserts every position up to `ip` and keeps the index valid: genuine for every search, and as far-reaching as its attempts, as stated for Search. |
| `Lz4HcPrices.PriceIsSize` | src/lz4/lz4_all.c:3474-3497 | The price of a sequence is the number of bytes it is encoded in, for every literal and match length. |
| `Lz4HcPrices.StartTable` | src/lz4/lz4_all.c:3578-3612 | The table of the first match: literals, the match at every length, three literals behind it; every entry is a literal or a genuine match step, none is priced too low, and no way over the first position is cheaper than what stands. |
| `Lz4HcPrices.Improve` | src/lz4/lz4_all.c:3650-3709 | A match found inside the segment: each entry it leads to is the cheaper of the two ways, on a tie the new one, unless speed of decoding is favoured; the end moves exactly if the match makes the better way there. |
| `Lz4HcPrices.EnteredIsLower` | src/lz4/lz4_all.c:3650-3709 | Entering a match raises no price, and changes nothing up to its position. |
| `Lz4HcPrices.EnteredIsWeighed` | src/lz4/lz4_all.c:3650-3709 | Afterwards neither up to three literals from there nor the match at any of its lengths makes a cheaper way to any position, the rewritten tail included. |
| `Lz4HcPrices.PathIsPriced` | src/lz4/lz4_all.c:3650-3709 | The price of a position behind a match is the size of the sequences on the way to it, if its literals are counted right. |
| `Lz4HcPrices.CountedBehind` | src/lz4/lz4_all.c:3651-3663 | A literal entered right behind a position is counted right if and only if the way to it is and it is not the end of a match with literals in front of it. |
| `Lz4HcOptimal.EncodeOne` | src/lz4/lz4_all.c:2715-2783 | The bytes written for a sequence are as many as its price and encode it; the invariant of the block is kept. |
| `Lz4HcOptimal.RetracedPath` | src/lz4/lz4_all.c:3716-3748 | In a table whose entries have been turned round, the forward walk meets exactly the positions of the backward path, then the end. |
| `Lz4HcOptimal.ReversePath` | src/lz4/lz4_all.c:3716-3734 | The in-place reversal turns the path round, for every table with 1 <= mlen[c] <= c. |
| `Lz4HcOptimal.FindLonger` | src/lz4/lz4_all.c:3506-3524 | A match returned is a match at `ip` that may stand in the block; it is the longest that the search with its attempts finds, cut to 18 from 19 to 36 for a fast decoder, and none exactly if that is not longer than the length given. |
| `Lz4HcOptimal.FillTable` | src/lz4/lz4_all.c:3614-3714 | Every position of the segment is searched with its attempts and the way over the match found weighed, or passed over because the next one costs no more, until the end of the table or the last 12 bytes is reached, or a match too long to be weighed ends the round; entries are literals or genuine match steps, none priced too low. |
| `Lz4HcOptimal.EncodePath` | src/lz4/lz4_all.c:3736-3748 | The sequences written are those of the way through the table, in order, and the last step. |
| `Lz4HcOptimal.CompressOptimal` | src/lz4/lz4_all.c:3528-3800 | The block is valid for the source, for every index, number of searches, sufficient length and update mode, within n + n/255 + 2 bytes. Its bytes are those of a run of rounds and the closing literals; each round begins at the first position behind the one before at which the search finds a match, takes it at once exactly if it is too long to be weighed, and otherwise fills a table as above; behind the last round the search finds none outside the last 12 bytes. |
| `Lz4HcRounds.RoundIsPriced` | src/lz4/lz4_all.c:3614-3748 | What a round writes is as long as the price at the end of its table, if its literals are counted right. |
| `Lz4HcRounds.NoLongerThanFirst` | src/lz4/lz4_all.c:3578-3748 | Such a round, if it reaches no further than its first match, is no longer than that match alone. |
| `Lz4HcRounds.UniformIsOneMatch` | src/lz4/lz4_all.c:3558-3576 | A run of one byte longer than the sufficient length is one literal and one match, for every number of searches from one on. |
| `XxHash32.AbsorbFill` | src/lz4/xxhash.c:469-484 | Completing the stripe in waiting absorbs the same stripe as the whole input would. |
| `XxHash32.Finalize` | src/lz4/xxhash.c:290-350 | The fall-through switch over the last 16 bytes is the loop "words, then bytes". |
| `XxHash32.Xxh32` | src/lz4/xxhash.c:352-389 | The one-shot hash is the reference function of the input. |
| `XxHash32Values.NoInput` | src/lz4/xxhash.c:352-389 | XXH32 of nothing is 0x02CC5D05 with seed 0 and 0x0B2CB792 with seed 1. |
| `XxHash32Values.OneByte` | src/lz4/xxhash.c:352-389 | Of "a" it is 0x550D7456. |
| `XxHash32Values.SixteenZeros` | src/lz4/xxhash.c:269-389 | Of 16 zero bytes it is 0x8E022B3A. |
| `XxHash32Values.Text` | src/lz4/xxhash.c:269-389 | Of "Nobody inspects the spammish repetition" (two stripes, a word and three bytes) it is 0xE2293B2F: every constant and rotation is met. |
| `XxHash32.RoundUndone` | src/lz4/xxhash.c:269-275 | A round is undone by its word: it is a bijection of the accumulator. |
| `XxHash32.StripeTells` | src/lz4/xxhash.c:374-377 | A stripe tells any two states of the lanes apart. |
| `XxHash32.TailTells` | src/lz4/xxhash.c:290-350 | So do the last words and bytes any two hashes before them. |
| `XxHash32.State.Update` | src/lz4/xxhash.c:451-512 | After any update the state holds the input fed so far, however it was cut, with the 32-bit total wrapping and the large-length flag sticking. |
| `XxHash32.Streamed` | src/lz4/xxhash.c:437-543 | Reset, any updates, digest: the hash of the concatenation, for every list of pieces of any total length. |
| `XxHash64.Finalize` | src/lz4/xxhash.c:702-808 | The fall-through switch over the last 32 bytes is the loop "long words, one word, bytes". |
| `XxHash64.Xxh64` | src/lz4/xxhash.c:811-852 | The one-shot hash is the reference function of the input. |
| `XxHash64Values.NoInput` | src/lz4/xxhash.c:811-852 | XXH64 of nothing is 0xEF46DB3751D8E999. |
| `XxHash64Values.Text` | src/lz4/xxhash.c:672-852 | Of the same text (a stripe and seven bytes) it is 0xFBCEA83C8A378BF1. |
| `XxHash64Values.OneLong` | src/lz4/xxhash.c:702-852 | Of the eight bytes "Nobody i", whose long word the text does not meet in its tail, it is 0x93FC083B5A3F012C. |
| `XxHash64.StripeTells` | src/lz4/xxhash.c:672-678 | A stripe tells any two states of the lanes apart. |
| `XxHash64.MergeRoundUndone` | src/lz4/xxhash.c:680-686 | Merging a lane is undone by that lane. |
| `XxHash64.State.Update` | src/lz4/xxhash.c:912-968 | As for 32 bits, with the total kept modulo 2^64. |
| `XxHash64.State.Digest` | src/lz4/xxhash.c:981-1003 | The digest is the hash unless the 64-bit total has wrapped to less than 32; then the value stated is returned, which is the hash if and only if the third lane plus the fifth prime is what the four lanes converge to. |
| `XxHash64.ConcludedTells` | src/lz4/xxhash.c:702-852 | Length, last bytes and avalanche lose nothing: two values the lanes could give lead to the same hash only if they are equal. |
| `XxHash64.Streamed` | src/lz4/xxhash.c:898-1003 | Reset, any updates, digest: the hash of the concatenation of less than 2^64 bytes. |
| `FrameHeader.WrittenReadsBack` | src/lz4/lz4_all.c:4897-4982 | A written descriptor, of independent or linked blocks, is read back field by field, whatever follows it. |
| `FrameHeader.HeaderPrefix` | src/lz4/lz4_all.c:4938-4950 | Seven bytes of a descriptor tell how many it has. |
| `FrameHeader.AcceptedIsWritten` | src/lz4/lz4_all.c:4897-4982 | Conversely, every accepted descriptor is the written form of the fields read from it, reserved bits and checksum included. |
| `FrameDecoder.DCtx.Reset` | src/lz4/lz4_all.c:4881-4886 | From any point of any frame the decoder is back at the beginning of whatever valid frame comes next, except that the count of content left is still that of the frame given up. |
| `FrameDecoder.DCtx.DecodeHeader` | src/lz4/lz4_all.c:4897-4982 | The stage, sizes and fields set are those of the pure parse of the bytes given, in each of its four outcomes. |
| `FrameDecoder.DCtx.Step` | src/lz4/lz4_all.c:5177-5570 | One stage: what was set aside plus the input to come stays the rest of the frame, output delivered plus output owed stays the content, and input, output or a rank moves. |
| `FrameDecoder.DCtx.Decompress` | src/lz4/lz4_all.c:5153-5607 | A call with any slice of a valid frame and any output capacity delivers the next part of the content, never consumes past the frame end, terminates, and stops only when the frame is complete or input or room is used up. |
| `FrameRuns.Run` | src/lz4/lz4_all.c:5153-5607 | Over any sequence of slices and capacities: the output is a prefix of the content, the result is 0 exactly when the frame is finished and then the output is all of it; every call that offers input and room makes progress. Otherwise the result is the number of bytes up to and with the next size field, or to the end (the few exceptions are stated), and it reaches beyond the frame by no more than the bytes `Overreach` names. |
| `FrameDecoder.DCtx.AsksTooMuch` | src/lz4/lz4_all.c:5167-5606 | What is asked for is more than the frame has left if and only if a checked compressed block, the last of a frame without content checksum, is partly set aside, or a skippable frame of less than three bytes has just begun. |
| `FrameAhead.HintedIsNear` | src/lz4/lz4_all.c:5167-5606 | What is asked for never reaches beyond a frame without block checksums; with them by 4 bytes at most, as the checksum of a compressed block partly read is counted twice, and for skippable frames of less than three bytes by up to 3. |
| `FrameExamples.EmptyFrame` | src/lz4/lz4_all.c:4458-4490 | The empty frame with content checksum is 04 22 4D 18, 64 40 A7, four zeros, 05 5D CC 02. |
| `FrameExamples.StoredByte` | src/lz4/lz4_all.c:4527-4549 | A frame of one stored, checked byte, byte for byte: flags, size field, checksum. |
| `FrameExamples.SkippableFrame` | src/lz4/lz4_all.c:4910-4922 | A skippable frame, byte for byte. |
| `FrameRuns.AbandonedFrame` | src/lz4/lz4_all.c:4881-4886 | The count left by an abandoned frame with announced size makes any later valid frame without one end in an error, after its content has been delivered in full. |
| `FrameRuns.EmptyFrameRefused` | src/lz4/lz4_all.c:5478-5487 | A frame that announces one byte, abandoned, makes the empty frame be refused, for every cutting. |
| `FrameEncoder.BoundIs` | src/lz4/lz4_all.c:4112-4137 | The bound is what the blocks of the data and the frame end take at most, if and only if the number of blocks is less than 2^32; otherwise it is less than that. |
| `FrameEncoder.CountedUpTo` | src/lz4/lz4_all.c:4112-4137 | Where that ends: with flushing behind 2^32 - 1 block sizes, otherwise before 2^32 of them, for every block size. |
| `FrameEncoder.BoundWraps` | src/lz4/lz4_all.c:4112-4137 | With 64 KB blocks flushed, one byte more than 2^48 - 65536 makes all block headers disappear from the bound, and for 2^48 bytes it is 4 bytes. |
| `FrameEncoder.MakeBlock` | src/lz4/lz4_all.c:4527-4549 | A block is written with size field and checksum, stored when compression does not save a byte, and never longer than the source with its overhead. |
| `FrameEncoder.CCtx.Begin` | src/lz4/lz4_all.c:4388-4490 | The descriptor written is that of the preferences (block size 0 taken as 4), and an empty frame is under way. |
| `FrameEncoder.CCtx.Update` | src/lz4/lz4_all.c:4612-4712 | The blocks written followed by the bytes kept waiting are all input so far; each block is what the compressor makes of its data, or stored; all are full, except with automatic flushing the last; what waits is the remainder by the block size, or nothing with automatic flushing; it fails exactly below the published bound and writes no more than that. |
| `FrameEncoder.CCtx.Flush` | src/lz4/lz4_all.c:4724-4758 | The bytes waiting become a block; nothing waits afterwards. |
| `FrameEncoder.CCtx.End` | src/lz4/lz4_all.c:4767-4806 | Last block, end mark and checksum: with the blocks before, the whole frame of the input; a size announced and not kept is refused. |
| `FrameEncoder.EndBound` | src/lz4/lz4_all.c:4112-4137 | The bound for an empty source is exactly what flush and end mark take. |
| `FrameStream.OptimalBSID` | src/lz4/lz4_all.c:4092-4105 | The smallest block size that takes the source, never above the requested one. |
| `FrameStream.CompressFrame` | src/lz4/lz4_all.c:4161-4210 | The one-call encoder succeeds exactly when the destination meets the frame bound of the preferences as given, keeps to it, and writes a valid frame of the source, with the smallest block size that takes it, none above the requested one, and cut into full blocks and a rest, each compressed if that saves anything. |
| `FrameStream.CutOnce` | src/lz4/lz4_all.c:4527-4549 | Compressed blocks of the same content cut in the same places are the same blocks, so the frame is determined. |
| `FrameStream.Session` | src/lz4/lz4_all.c:4611-4806 | Any run of begin, updates, flushes and end, each in just the room its bound announces and with countable blocks, writes the valid frame of all input, cut into blocks of the sizes stated; it fails exactly if a size was announced and the 64-bit total is another. |
| `FrameStream.RoundTrip` | src/lz4/lz4_all.c:5153-5607 | What any run of the encoder wrote, any run of the decoder gives back, with the same frame parameters. |
| `ZfpBits.BitWriter.WriteLong` | src/mg_bitstream.h:61-64 | Writing `Count` low bits appends just those, lowest first. |
| `ZfpBits.BitReader.ReadLong` | src/mg_bitstream.h:48-51 | Reading `Count` bits returns the word they form. |
| `ZfpPlane.EncodeCall` | src/mg_zfp.cpp:10-50 | A call never writes more bits than its budget and never moves `M` past `N`. |
| `ZfpPlane.CallReadsBack` | src/mg_zfp.cpp:53-86 | The decoder, on the encoder's bits with anything behind them, ends in the same `N`, `M`, `In` and verdict and has put together exactly the coefficients the encoder passed over. |
| `ZfpPlane.CallMoves` | src/mg_zfp.cpp:10-50 | A call never takes `N` back; when it is done there is no one from `N` on, and if it moved `N` a one stands before it; not done, it moves `N` only into a group. |
| `ZfpPlane.CallStops` | src/mg_zfp.cpp:10-50 | A call is done exactly when its budget covers the need of the plane; if done only zeros are left, if not the whole budget is spent and `In` tells the truth although nothing ever clears it. |
| `ZfpPlane.Need128` | src/mg_zfp.cpp:10-50 | 128 bits finish any plane from any state. |
| `ZfpPlane.CallIsEmbedded` | src/mg_zfp.cpp:88-126 | A smaller budget writes exactly the prefix of what a larger one writes. |
| `ZfpPlane.PlaneCost` | src/mg_zfp.cpp:88-126 | An uncut plane started at `N < 64` costs at most 127 - N bits, and 64 raw bits when N = 64. |
| `ZfpPlane.PlaneSurvivesCuts` | src/mg_file_format.cpp:199-217 | However often a plane is cut, inside a group or not, the values decoded are those of the plane, and once the encoder is done the rest is zero. |
| `ZfpPlane.CallsFinish` | src/mg_file_format.cpp:199-217 | Budgets of two bits or more finish any plane. |
| `ZfpPlane.OneBitMakesNoProgress` | src/mg_file_format.cpp:199-217 | A budget of one bit can be handed back unchanged for ever. |
| `ZfpCoder.Encode` | src/mg_zfp.cpp:10-50 | The loops with the jump into the inner one, on words shifted in place, compute that call: same bits, same state, same verdict. |
| `ZfpCoder.Decode` | src/mg_zfp.cpp:53-86 | The same for the decoder, which adds the values to the block and touches nothing else. |
| `ZfpCoder.EncodePlain` | src/mg_zfp.cpp:88-126 | The loops of the plain encoder, which has no flag, compute the same call entered outside groups, wherever it is cut. |
| `ZfpCoder.DecodePlain` | src/mg_zfp.cpp:128-160 | The loops of the plain decoder likewise. |
| `ZfpCoder.DepositChangesOnePlane` | src/mg_zfp.cpp:80-83 | Adding values into an empty plane restores just those coefficients of it, and no bit of any other plane changes. |
| `ZfpTile.SilentCall` | src/mg_file_format.cpp:199-217 | A call with budget writes nothing in one situation only: after a cut right behind the group bit of coefficient 63. |
| `ZfpTile.WriteEMax` | src/mg_file_format.cpp:105-116 | A block that reaches the tolerance has a 1 and its biased exponent appended, any other a 0. |
| `ZfpTile.WriteTile` | src/mg_file_format.cpp:163-222 | The chunks written are the bit stream of the tile, exponents in front of the first plane of each block, all full but the last. Every plane is coded from the `N` its block has earned: one more than its last coefficient with a one in a coded plane above, and so are the `Ns` left behind. |
| `ZfpTile.TileStream` | src/mg_file_format.cpp:163-222 | The stream in which `N` is carried along is the one in which it is read off the coefficients before every plane. |
| `ZfpTile.SignificantIs` | src/mg_file_format.cpp:199-203 | That `N` is an upper bound of the coefficients with a one in a coded plane above, and if it is not 0 the one before it has such a one. |
| `ZfpTile.RawFirst` | src/mg_file_format.cpp:199-203 | The bits of a plane begin with the bits of the `N` coefficients, one each. |
| `ZfpTileRead.ReadEMax` | src/mg_file_format.cpp:118-126 | The exponent written is read back, and an insignificant block gets the exponent of the tolerance less two. |
| `ZfpTileRead.ReadPlane` | src/mg_file_format.cpp:503-523 | A plane read over as many chunks as it takes is the plane that was written, unless the chunks ran out on coefficient 63. |
| `ZfpTileRead.DecompressTile` | src/mg_file_format.cpp:477-541 | From chunks that carry the stream, reading stays inside them if and only if no header without a plane fills a chunk in front of another header; then every block is restored down to its lowest plane, except for one bit in one case, stated exactly, with its exponent; and which blocks are transformed back is stated exactly. |
| `ZfpTileRead.OneBitIsMissing` | src/mg_file_format.cpp:503-523 | The exceptional outcome really is a loss: the tile is not the one written. |
| `ZfpTileCases.TileRoundTrip` | src/mg_file_format.cpp:163-222 | Written, padded to whole chunks and read back, a tile is the same if and only if neither of the two cases occurs. |
| `ZfpTileCases.SecondPlaneIsRaw` | src/mg_file_format.cpp:199-217 | A block whose first coefficient has its top two bits set is, behind its header, 110 in the first plane and 10 in the second. |
| `ZfpTileCases.TwoPlanesTile` | src/mg_file_format.cpp:105-217 | Such a tile exists for 32-bit floats, and the bits of its header are stated. |
| `ZfpTileCases.LonelyCoefficientIsLost` | src/mg_file_format.cpp:199-217 | For insignificant blocks followed by one whose only one is in coefficient 63 of the plane coded, filling the chunk, no outcome of reading is the tile. |
| `ZfpTileCases.LonelyTile` | src/mg_file_format.cpp:163-222 | Such a tile exists for 32-bit floats, in a chunk that is large enough for `Finalize`. |
| `ZfpTileCases.HeadersTrip` | src/mg_file_format.cpp:485-497 | Blocks that have an exponent and no plane, a whole number of them to a chunk and one more, make the reader look for an exponent behind a chunk. |
| `ZfpTileCases.HeadersTile` | src/mg_file_format.cpp:485-497 | Such a tile exists for 32-bit floats. |
| `ZfpTileCases.FirstBlockIsNotShown` | src/mg_file_format.cpp:525-536 | Two blocks of zeros whose stream ends with a chunk in the plane of the second: the first is not transformed back. |
| `ZfpTileCases.ZerosTile` | src/mg_file_format.cpp:525-536 | Such a tile exists for 32-bit floats in chunks of 8 bytes. |
| `ZfpTileCases.AllShownIff` | src/mg_file_format.cpp:525-536 | All blocks are transformed back exactly if the stream does not end with a chunk, or ends with a header or in the last block of the lowest plane, or there is one block. |
| `Subbands.BuildSubbands` | src/mg_wavelet.cpp:845-874 | The loops build the subbands of the recursive definition, coarsest first, empty ones left out. |
| `Subbands.SubbandsPartitionDomain` | src/mg_wavelet.cpp:845-874 | For every domain and number of levels, each sample is in exactly one subband and nothing else is in any, if and only if directions of one sample come last or there is no level. |
| `SubbandTools.AggregateSubbands` | src/mg_wavelet.cpp:699-716 | The loop computes the aggregates of the recursive definition. |
| `SubbandTools.AggregatesRestoreDomain` | src/mg_wavelet.cpp:699-716 | When every subband has samples, aggregate I contains subbands 0 to I and the last aggregate is the whole domain. |
| `SubbandTools.AggregateIsDomain` | src/mg_wavelet.cpp:699-716 | The last aggregate of a built list is the domain if and only if no direction comes down to one sample before the last level and directions of one sample come last; in any case no stride is halved to 0. |
| `SubbandTools.DeepIsFull` | src/mg_wavelet.cpp:845-874 | Every subband has samples exactly when their number is the one reserved, (2^d - 1) a level and one. |
| `SubbandTools.NumberOfLevel` | src/mg_wavelet.cpp:876-911 | A subband number is recovered from its level. |
| `SubbandTools.LevelOfNumber` | src/mg_wavelet.cpp:876-911 | A level is recovered from its number. |
| `SubbandTools.OriginOfNumber` | src/mg_wavelet.cpp:845-911 | In three dimensions subband `Sb` starts at its normalised level times half its stride. |
| `Filters.Upsample` | src/mg_signal_processing.cpp:314-325 | In place, from the end down, no coefficient is read after it has been overwritten. |
| `Filters.UpsampledIsSquare` | src/mg_signal_processing.cpp:314-325 | Upsampling turns p(x) into p(x^2). |
| `Filters.Convolve` | src/mg_signal_processing.cpp:327-342 | The clipped inner loop computes every coefficient of the convolution. |
| `Filters.ConvolvedIsProduct` | src/mg_signal_processing.cpp:327-342 | Convolution is the product of polynomials. |
| `Filters.ScalIsProduct` | src/mg_wavelet.cpp:47-76 | The scaling function of level L is the product of w(x^(2^i)) for i = 0..L, of length 2^(L+2) - 1. |
| `Filters.WaveIsProduct` | src/mg_wavelet.cpp:47-76 | The wavelet function of level L is g(x^(2^L)) times that product for i < L. |
| `Filters.WaveLength` | src/mg_wavelet.cpp:47-76 | Its length is 6 * 2^L - 1. |
| `Filters.GetCdf53Norms` | src/mg_wavelet.cpp:47-76 | Entry L of both results is the squared norm of the function of level L. |
| `FilterNorms.ScalIsHat` | src/mg_wavelet.cpp:47-76 | The scaling function of level L is the hat function of width 2^(L+2). |
| `FilterNorms.WaveIsStraight` | src/mg_wavelet.cpp:47-76 | The wavelet function of level L runs straight between its five weights, which lie 2^L apart. |
| `FilterNorms.NormsAre` | src/mg_wavelet.cpp:47-76 | With m for 2^L, the squared norms are (8m + 1/m) / 6 and (12m + 11/m) / 32. |
| `JsonRoundTrip.EscapedReads` | src/picojson.h:710-769 | `\u` escapes in either case, and surrogate pairs, are read as the UTF-8 of the character (section 7 of RFC 8259, section 3 of RFC 3629). |
| `JsonRoundTrip.CodepointIsScalar` | src/picojson.h:731-769 | Whatever escape is accepted stands for a character that is no surrogate, and its octets decode to it. |
| `JsonRoundTrip.StringReads` | src/picojson.h:522-557 | A printed string is read back, whatever its bytes. |
| `JsonRoundTrip.PrintReads` | src/picojson.h:574-637 | A printed value is read back from the front of any text that does not run on, compact or indented to any depth. |
| `JsonRoundTrip.SerializeReads` | src/picojson.h:559-643 | parse(serialize(v)) is v, compact or prettified, for every finite nesting; only the final newline is left. |
| `JsonParser.Input.Getc` | src/picojson.h:654-670 | The cursor hands out the next byte, -1 at the end, and counts the lines passed. |
| `JsonParser.Input.Match` | src/picojson.h:699-707 | A literal is matched exactly if it comes next. |
| `JsonParser.ParseCodepoint` | src/picojson.h:731-769 | Over the cursor: accepts exactly the escapes of the grammar and appends their octets. |
| `JsonParser.ParseString` | src/picojson.h:772-811 | Over the cursor: accepts exactly the strings of the grammar. |
| `JsonParser.ParseArray` | src/picojson.h:813-828 | The loop over items accepts exactly the arrays of the grammar. |
| `JsonParser.ParseObject` | src/picojson.h:830-847 | The loop over fields accepts exactly the objects of the grammar. |
| `JsonParser.ParseValue` | src/picojson.h:869-921 | The parser terminates, accepts exactly the grammar, builds its value and consumes exactly its text. |
| `JsonParser.ParseText` | src/picojson.h:1072-1091 | Value and position as in the grammar. Of an error, the line is that of the byte at which reading stops and the text near it is the printable rest of that line, where reading stops being given by a function on the text for every way a text can be refused, pushed-back bytes included. |
| `JsonExamples.WhiteSpaceIs` | src/picojson.h:682-691 | White space is space, tab, line feed and carriage return. |
| `JsonExamples.EscapesAre` | src/picojson.h:522-538 | The eight two-character escapes are printed for the bytes of section 7 of RFC 8259, read as the same, and there are no others. |
| `JsonExamples.Utf8Is` | src/picojson.h:731-769 | The octets of a character carry its number, are as many as the first one tells, and the fewest that will do (section 3 of RFC 3629). |
| `JsonExamples.LessIs` | src/picojson.h:1005-1009 | Keys are in the order of a dictionary. |
| `JsonExamples.Prettified` | src/picojson.h:574-643 | The layout of prettified text, byte for byte, for an object with an array and an empty object. |
| `JsonExamples.Compact` | src/picojson.h:574-643 | The same value in compact text. |
| `JsonValues.PutIsUpdate` | src/picojson.h:1005-1009 | `o[key] = v` on the ordered fields is the update of the map and keeps the order. |
| `JsonValues.ParsedIsValid` | src/picojson.h:869-921 | Every parsed value is one that prints and reads back, its fields in order. |
| `JsonValues.ParsedPrintsBack` | src/picojson.h:559-643 | Printing what was parsed and parsing it again gives the same value. |

## Left out

- LZ4 `fillOutput` and `limitedOutput` modes, external dictionaries, `dictCtx`, linked-block history, pointer tables and the obsolete `_fast` decoders: other contracts, or aliasing without a cleaner property.
- The hash-chain parser of LZ4 HC (`LZ4HC_compress_hashChain`).
- Lz4HcSearch.Search: beyond the head of the chain, how far the attempts get is stated for searches that do not analyse patterns, or whose matches start at `ip`, as the optimal parser makes them; a search that looks back and analyses patterns, as the hash-chain parser makes them, is promised the head and genuine matches.
- Lz4HcSearch.WiderMatch: the same.
- Malformed blocks and frames: beyond the descriptor, results are for valid ones. Failing returns of the decoders are kept in the models and proved not to be taken.
- Words are compared and copied as windows of bytes; only little-endian reading of xxHash is modelled, and alignment not at all.
- The value of `acceleration` is unbounded; the overflow of the search counter for huge values is not modelled.
- Lz4HcRounds.RoundIsPriced: asks that literals on the way are counted right (`Counted`), which the table shows; how much the size written can differ from the price where they are not is not stated.
- Lz4HcRounds.NoLongerThanFirst: the same.
- LZ4 HC indices past 2 GB, where the source is restarted by its callers, are outside `HcIndex.Restart`.
- FrameStream.Session: pieces whose blocks cannot be counted in 32 bits are excluded (`Feasible`), and where a content of 2^64 bytes or more happens to wrap to the size announced, the frame is written but only its blocks are stated.
- Frames with linked blocks, and the `stableDst` and `skipChecksums` style options.
- ZfpTile.WriteTile: asks that no exponent crosses the end of a chunk (`HeadersFit`); quantization, shuffling and the block transform are code of their own kind. Chunks have at least a byte.
- ZfpTileRead.DecompressTile: what is read behind the end of a chunk is not modelled; the model stops there. `Shown` records where the transform would take place.
- The register and refill arithmetic of the bit stream: it is a sequence of bits with the contract of its header.
- The 64-bit overflow of adding a bit into a plane that already has it; the theorems start from empty planes.
- The extent version of `BuildSubbands`, lifting steps, and the other grids of src/mg_wavelet.cpp.
- Filters.GetCdf53Norms: does not take the square root of the norms, because reals have no square root here, and does not model rounding.
- Number printing and reading in picojson: a number is its text, and reading it is a parameter.
- The partial value a failed parse leaves behind, recursion depth, `operator==` and the other contexts of picojson.
- File access, metadata, statistics, memory mapping, the logger, the visualizer and the rest of the repository: nothing harder to prove than what is here.
