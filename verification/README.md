# Compression, archives, checksums and host reconciliation

A model, with proofs, of the parts of the repository that compute something hard:

- the DEFLATE engine of `third-party/miniz-cpp/zip_file.hpp` (RFC 1951): the compressor with its sliding
  window, parser, packed code buffer, Huffman coding and choice of block form, and the resumable decompressor;
- its ZIP container (APPNOTE.TXT, sections 4.3.7, 4.3.12 and 4.3.16): writing, opening, listing, searching,
  extracting and copying archives, with stored and with compressed files;
- its checksums, CRC-32 and Adler-32 (RFC 1950, section 2.2);
- the base64 printer and parser of `common/crypto.cpp` (RFC 4648, section 4);
- the two threads of `binance_orders/src/background_threads.cpp` that keep the running streams in step with
  the database, and the queue of `common/containers.hpp` between them.

What the source changes in place is a class or an array here, with the same loops, constants and branches.
What it means is a function on values: blocks and tokens (`Format`), a goal and a point on the way to it
(`Progress`), the records of an archive (`ZipFormat`), the remainder of a division (`Crc32`), the effect of a
list of events (`Hosts`). The chain of results is

1. each step of the decompressor moves along the blocks of a valid stream, so every way to cut up the input and
   the output gives the same data (`Inflators`, `Inflate`);
2. the compressor's parser, tables and bit writer put out exactly the bits of blocks that stand for the input,
   and drop no byte; the blocks come from a parse of the data that takes the longest match it can reach, and their
   codes are the cheapest there are, unless a limit is reached (`Parsers`, `Compressors` and all below it);
3. hence compressing and decompressing gives back the data, for all options (`Deflate`);
4. hence adding files to an archive, closing it, opening it and extracting them gives them back, and copying an
   archive gives the same bytes (`ZipRoundTrip`).

Stages of the decompressor carry names for the numbered states of the source's coroutine. A valid stream is
given to it as ghost blocks; what it computes does not depend on them.

## Findings

Properties that the code does not have everywhere, with the input that shows it and the exact condition:

- The reader refuses some archives that the writer makes: those in whose end record the signature occurs once
  more (then the backward search stops there), and those with a file of 4 GiB less one byte, which the writer
  lets pass when it compresses well. `ZipRoundTrip.UnluckyRefused` gives such an archive; `Opens` in
  `ZipReaders.Reader.InitMem` and `ZipRoundTrip.RoundTrip` is the exact condition.
- The binary search keeps only the low 32 bits of the length of the name it looks for, and so can find a file
  that the scan does not. `NameIndex.Misled` gives the archive, `NameIndex.IndexAgrees` the exact condition.
- A repetition is not found if its start, or one nearer to the lookahead with the same hash, is a multiple of 65536,
  because links have 16 bits and 0 is no link: `HashChains.LostLink`; `HashChains.OnChain` has the condition.
- The first of the two assertions at the end of base64 encoding fails for no data, because the size it compares
  with wraps around: `Base64.EndAssertions`, exactly for n = 0.
- Rows that are queued without the monitor (`binance_orders/src/session.cpp:217`) are found by the monitor again
  and watched twice: `HostSync.DirectAppend`, `HostSync.WatchedTwice`.

## Model

| member | source | states |
|---|---|---|
| Canonical.PrefixFree | third-party/miniz-cpp/zip_file.hpp:2745-2757 | the code that the assignment gives to one used symbol never starts the code of another, for all lengths within the Kraft inequality |
| Canonical.Exhaustive | third-party/miniz-cpp/zip_file.hpp:2745-2757 | if the lengths meet Kraft with equality, every string of 15 bits starts with the code of some used symbol |
| Canonical.AcceptedIsDecodable | third-party/miniz-cpp/zip_file.hpp:2109-2119 | the decoder's test of a table (total 65536 or at most one used symbol) passes exactly for decodable lengths |
| Symbols.LengthRoundTrip | third-party/miniz-cpp/zip_file.hpp:2497-2528 | for each of the 256 lengths, the decompressor's base (lines 1963-1968) plus the extra bits the compressor sends gives back the length |
| Symbols.DistRoundTrip | third-party/miniz-cpp/zip_file.hpp:2530-2597 | for every distance up to 32768, the decompressor's base (lines 1969-1977) plus the extra bits the compressor sends gives back the distance |
| DecodeTable.OnlyPrefixes | third-party/miniz-cpp/zip_file.hpp:2139-2156 | with at most one used symbol, the inner nodes of a level are one node: there is no second path through the tree |
| HuffTables.HuffTable.Build | third-party/miniz-cpp/zip_file.hpp:2100-2157 | succeeds exactly for decodable lengths, and then look-up table and overflow tree hold every code |
| HuffTables.HuffTable.AddSymbol | third-party/miniz-cpp/zip_file.hpp:2126-2157 | one more symbol goes in, the entries and paths of those before it stay, and the new ones are right |
| HuffTables.HuffTable.Decode | third-party/miniz-cpp/zip_file.hpp:1924-1951 | bits that start with the code of a symbol, followed by anything, give that symbol and its length |
| BitReaders.BitReader.GetBits | third-party/miniz-cpp/zip_file.hpp:1862-1888 | takes the next n bits of buffer and input, or says that input is missing and takes none |
| BitReaders.BitReader.GetByte | third-party/miniz-cpp/zip_file.hpp:1842-1860 | takes the next byte, or says that input is missing |
| BitReaders.BitReader.Fill | third-party/miniz-cpp/zip_file.hpp:1896-1914 | fills the buffer until it holds a whole code, or input is missing; never reads past the code's need and loses no bit |
| BitReaders.BitReader.DecodeSym | third-party/miniz-cpp/zip_file.hpp:1924-1951 | takes exactly the code of the next symbol off the bits, or none of it when input is missing |
| BitReaders.BitReader.LoadFour | third-party/miniz-cpp/zip_file.hpp:2203-2208 | four bytes at once move into the 64-bit buffer and the bits to come stay the same |
| Windows.Window.CopyFast | third-party/miniz-cpp/zip_file.hpp:2308-2339 | the eight-byte copy (when the match does not overlap itself) and the three-byte copy give the byte-by-byte copy, and nothing behind the match changes |
| Windows.Window.CopySlow | third-party/miniz-cpp/zip_file.hpp:2297-2307 | the copy through the ring, interrupted when there is no room, leaves exactly the rest of the byte-by-byte copy to do |
| Windows.Window.CopyThrees | third-party/miniz-cpp/zip_file.hpp:2327-2339 | the loop of three bytes with its tail of one or two copies overlapping matches right |
| Windows.Window.CopyEights | third-party/miniz-cpp/zip_file.hpp:2308-2325 | the loop of eight bytes copies all but length mod 8 bytes of a match that is not longer than its distance |
| RunLength.Packer.Pack | third-party/miniz-cpp/zip_file.hpp:2850-2876 | the symbols, 16, 17 and 18 with their extra bits, expand to the code lengths, and are those of runs that are each as long as can be: up to 138 zeros, and up to 6 more of a length; they take no more bytes than there are lengths |
| RunLength.Packer.FlushRepeats | third-party/miniz-cpp/zip_file.hpp:2776-2793 | the pending repeats go out, as themselves or as one 16, and stand for as many copies of the previous length |
| RunLength.Packer.FlushZeros | third-party/miniz-cpp/zip_file.hpp:2795-2816 | the pending zeros go out, as themselves, as 17 or as 18, and stand for as many zeros |
| RunLength.ExpandRun | third-party/miniz-cpp/zip_file.hpp:2170-2175 | a run is written out behind the lengths so far and never past the 457 entries of the buffer |
| RunLength.UnpacksLength | third-party/miniz-cpp/zip_file.hpp:2158-2179 | the symbols of a valid header never run past the lengths that are expected |
| Progress.MovedLess | third-party/miniz-cpp/zip_file.hpp:2026-2342 | every move that reads, writes or advances goes down in a well-founded order, so each call ends |
| Progress.Prefix | third-party/miniz-cpp/zip_file.hpp:2026-2342 | at each point the output so far begins the data, and at the end it is the data |
| Progress.RunRoom | third-party/miniz-cpp/zip_file.hpp:2158-2179 | a run in a valid header starts below 320 lengths, and a 16 has a length before it |
| Inflators.Inflator.StepCopy | third-party/miniz-cpp/zip_file.hpp:2288-2339 | a match is written through whichever of the copies applies, or up to the end of the room, and the point reached is the right one |
| Inflators.Inflator.StepFast | third-party/miniz-cpp/zip_file.hpp:2199-2266 | the unrolled decoding of up to two literals makes the moves of decoding one at a time |
| Inflators.Inflator.StepLengthRun | third-party/miniz-cpp/zip_file.hpp:2170-2176 | a run of code lengths is read and expanded, or waits for input |
| Inflators.Inflator.StepRawCopy | third-party/miniz-cpp/zip_file.hpp:2050-2069 | bytes of a stored block go straight from input to output, as many as both allow |
| Inflators.Inflator.Step | third-party/miniz-cpp/zip_file.hpp:1958-2398 | each stage keeps the invariant and makes progress, or waits for input or room, or is at the end |
| Inflators.Inflator.Decompress | third-party/miniz-cpp/zip_file.hpp:1958-2398 | one call on a valid stream appends what it reports, which begins the data; it asks for input only when all is used, for room only when all is full, and is done exactly with the whole data |
| Inflators.Inflator.Supply | third-party/miniz-cpp/zip_file.hpp:1978-2007 | new buffers for the next call change neither what is left to read nor what was written |
| Inflate.MemToMem | third-party/miniz-cpp/zip_file.hpp:2445-2458 | succeeds exactly if the output fits, and then gives the data of the stream |
| Inflate.InPieces | third-party/miniz-cpp/zip_file.hpp:1958-2398 | every split of input and output over calls gives the outcome of one call with all of both |
| Inflate.MemToCallback | third-party/miniz-cpp/zip_file.hpp:2460-2491 | the callback gets the data of the stream through a ring of 32768 bytes, unless it refuses |
| BitWriters.BitWriter.PutBits | third-party/miniz-cpp/zip_file.hpp:2760-2774 | the bits go behind those before them; bytes beyond the end of the buffer are dropped and counted |
| BitWriters.BitWriter.Rewind | third-party/miniz-cpp/zip_file.hpp:3126-3128 | goes back to an earlier point and forgets exactly what was put since |
| RadixSort.PassPermutes | third-party/miniz-cpp/zip_file.hpp:2618-2633 | one pass is a permutation |
| RadixSort.Pass | third-party/miniz-cpp/zip_file.hpp:2618-2633 | one pass distributes into the buckets of a digit, keeping the order within each |
| RadixSort.BucketOrder | third-party/miniz-cpp/zip_file.hpp:2618-2633 | within a bucket the order of the input stays: the pass is stable |
| RadixSort.Sort | third-party/miniz-cpp/zip_file.hpp:2605-2635 | the result is a permutation sorted by count, and by symbol among equal counts, also when the second pass is skipped |
| MinRedundancy.MakeMerges | third-party/miniz-cpp/zip_file.hpp:2647-2661 | the first phase merges the two least weights each time, in the array itself, without overflow of the 16-bit keys |
| MinRedundancy.FindDepths | third-party/miniz-cpp/zip_file.hpp:2662-2664 | the second phase turns parents into depths |
| MinRedundancy.NextLayer | third-party/miniz-cpp/zip_file.hpp:2665-2681 | the number of nodes of a depth follows from the parents of the layer before |
| MinRedundancy.SpreadLeaves | third-party/miniz-cpp/zip_file.hpp:2665-2681 | the third phase gives leaves lengths that fill the code space, do not increase along the array, and whose weighted total is the sum of the merges |
| MinRedundancy.DepthBound | third-party/miniz-cpp/zip_file.hpp:2639-2682 | with counts that sum below 65536 no inner node is deeper than 21 (Fibonacci), so no length reaches the bound of the count array |
| MinRedundancy.StaysFull | third-party/miniz-cpp/zip_file.hpp:2695-2696 | lengths that fill the space at their own depth fill it at every greater depth |
| Optimal.NoneShorter | third-party/miniz-cpp/zip_file.hpp:2639-2682 | no lengths within the Kraft inequality, and so no prefix code, have a smaller weighted total than the sum of the merges |
| LengthLimit.SplitOne | third-party/miniz-cpp/zip_file.hpp:2699-2704 | moving one code down a level and two up keeps the space and adds one code |
| LengthLimit.EnforceMax | third-party/miniz-cpp/zip_file.hpp:2686-2707 | the loop ends, never takes from an empty count, keeps the number of codes and leaves Kraft equality within the limit; the counts are those of a recursive shortening, the same as before if no code was too long, and else some code has the limit as its length |
| EncodeTables.EncodeTable.AssignCodes | third-party/miniz-cpp/zip_file.hpp:2745-2757 | every used symbol gets its canonical code, bit-reversed |
| HuffCodes.CodeLengths | third-party/miniz-cpp/zip_file.hpp:2639-2682 | for a list in order: each position keeps its symbol; the lengths are a full code and no code is cheaper, for one symbol as well |
| HuffCodes.Optimize | third-party/miniz-cpp/zip_file.hpp:2709-2758 | a decodable code within the limit for just the symbols with a count; a symbol with the larger count has no longer code; no sizes within the Kraft inequality have a smaller sum of counts times sizes, unless the limit is reached; and in any case the sizes come from such ones by shortening |
| SizeLists.BestIsShortest | third-party/miniz-cpp/zip_file.hpp:2736-2739 | lengths that are the best for the sorted list are, when dealt out to its symbols, the best for the symbols, whatever lengths others may get |
| SizeLists.RankedOrdered | third-party/miniz-cpp/zip_file.hpp:2736-2739 | dealing out the lengths from the end of the sorted list gives the longer codes to the rarer symbols |
| SizeLists.RankedSame | third-party/miniz-cpp/zip_file.hpp:2724-2739 | counting the lengths and dealing them out again gives each symbol of the list its length back |
| LzCodes.PackedGroup | third-party/miniz-cpp/zip_file.hpp:3503-3543 | a group of eight tokens, flags first, goes behind the full groups |
| LzCodes.CodeBuffer.RecordLiteral | third-party/miniz-cpp/zip_file.hpp:3503-3513 | the buffer holds one literal more, in packed form |
| LzCodes.CodeBuffer.RecordMatch | third-party/miniz-cpp/zip_file.hpp:3515-3535 | the buffer holds one match more, in packed form |
| BlockWriters.PutMatch | third-party/miniz-cpp/zip_file.hpp:3039-3059 | puts the codes and extra bits of one match |
| BlockWriters.CompressLzCodes | third-party/miniz-cpp/zip_file.hpp:3028-3069 | reads the packed buffer back and puts the codes of its tokens and of the end of block; says whether room was left |
| HeaderWriters.StartStatic | third-party/miniz-cpp/zip_file.hpp:2906-2925 | fills the tables with the fixed codes and puts the type of the block |
| HeaderWriters.StartDynamic | third-party/miniz-cpp/zip_file.hpp:2821-2904 | makes tables that have codes for all tokens and puts a valid header that describes them and wastes nothing: no codes are cheaper for the counts of the symbols unless a limit is reached, the lengths are packed in the longest runs, and no unused length at an end is sent |
| HeaderWriters.PutHeader | third-party/miniz-cpp/zip_file.hpp:2880-2903 | puts the counts, the code length code and the packed lengths, as section 3.2.7 of RFC 1951 lays them out |
| Published.HeaderNumbers | third-party/miniz-cpp/zip_file.hpp:2880-2890 | of every header the first five, five and four bits are the numbers of section 3.2.7 of RFC 1951 |
| Published.LengthsInOrder | third-party/miniz-cpp/zip_file.hpp:2818-2893 | the three-bit fields that follow are the lengths of symbols 16, 17, 18, 0, 8, 7, 9, 6, 10, 5, 11, 4, 12, 3, 13, 2, 14, 1 and 15 in this order, and lengths that are not sent are zero |
| Published.LengthSymbols | third-party/miniz-cpp/zip_file.hpp:1963-1968 | the bases and extra bits of the length symbols are those of section 3.2.5 of RFC 1951, in closed form |
| Published.DistanceSymbols | third-party/miniz-cpp/zip_file.hpp:1969-1974 | the bases and extra bits of the distance symbols are those of section 3.2.5 of RFC 1951, in closed form |
| Published.FixedCodes | third-party/miniz-cpp/zip_file.hpp:2906-2925 | the fixed codes are the numbers of section 3.2.6 of RFC 1951 |
| KnownStreams.StoredStream | third-party/miniz-cpp/zip_file.hpp:3129-3140 | eight bytes, a stored block with its length and complement, are a stream for abc |
| KnownStreams.FixedStream | third-party/miniz-cpp/zip_file.hpp:2906-2925 | the bytes 4B 4C 4A 06 00 are a stream of one fixed block for abc |
| DynamicStreams.DynamicStream | third-party/miniz-cpp/zip_file.hpp:2821-2904 | nineteen bytes, with symbols 16, 17 and 18 and a match with extra bits of both kinds, are a stream of one dynamic block for abcdababcdababcdab |
| SymbolCounts.CountsAreCountable | third-party/miniz-cpp/zip_file.hpp:3503-3543 | the counts of the recorded tokens sum below 65536 and count every symbol of every token |
| SymbolCounts.FixedBlockFits | third-party/miniz-cpp/zip_file.hpp:3144-3148 | a block of fixed codes for a full code buffer always fits the output buffer, so the last resort drops no byte |
| Encoders.Encoder.RecordLiteral | third-party/miniz-cpp/zip_file.hpp:3503-3513 | a literal is recorded and counted |
| Encoders.Encoder.RecordMatch | third-party/miniz-cpp/zip_file.hpp:3515-3543 | a match is recorded and its two symbols are counted |
| Encoders.Encoder.CompressBlock | third-party/miniz-cpp/zip_file.hpp:3073-3079 | puts a block of the tokens in the form asked for, with a header that wastes nothing; says whether room was left |
| Encoders.Encoder.StoreRaw | third-party/miniz-cpp/zip_file.hpp:3129-3140 | puts a stored block of the bytes in the dictionary, on a byte boundary, with its length and complement |
| Encoders.Encoder.WriteForm | third-party/miniz-cpp/zip_file.hpp:3111-3148 | the block stands for the tokens or for the bytes they stand for; it is stored exactly if the bytes are in the dictionary and raw form was asked for or the compressed block is not shorter by two bytes, and else it is the compressed one, with its own codes from 48 bytes on, unless that does not fit the output buffer |
| Encoders.Encoder.WriteFinal | third-party/miniz-cpp/zip_file.hpp:3109-3148 | the same with the bit for the last block in front; no byte is dropped |
| Encoders.Encoder.WriteBlock | third-party/miniz-cpp/zip_file.hpp:3081-3209 | from the buffer of tokens to one whole block behind the bits left over, padded at the end; the buffer is empty again |
| Dictionaries.GenuineCopy | third-party/miniz-cpp/zip_file.hpp:3273-3318 | copying a genuine match, overlaps included, gives the bytes of the input |
| Dictionaries.Dictionary.Fill | third-party/miniz-cpp/zip_file.hpp:3552-3600 | the lookahead takes in input, the ring and its mirrored tail hold the last 32768 bytes, and every position with three bytes is linked to the last one before it with the same hash |
| Dictionaries.Dictionary.Move | third-party/miniz-cpp/zip_file.hpp:3664-3667 | the lookahead moves on, and the dictionary goes back as far as the ring has room beside the lookahead |
| Dictionaries.Dictionary.Link | third-party/miniz-cpp/zip_file.hpp:3572-3573 | one more position is entered in the table of hashes and in the chain |
| HashChains.RollOn | third-party/miniz-cpp/zip_file.hpp:3558-3571 | a hash that goes along byte by byte is the hash of the last three bytes |
| HashChains.WholeIs | third-party/miniz-cpp/zip_file.hpp:3588-3593 | and the hash of three bytes at once is the same |
| HashChains.EnterOne | third-party/miniz-cpp/zip_file.hpp:3572-3573 | each position is linked to the last before it with its hash, whatever has been overwritten in the ring |
| HashChains.MatchHasKey | third-party/miniz-cpp/zip_file.hpp:3571-3573 | a match of three bytes or more is at a position with the same hash |
| HashChains.OnChain | third-party/miniz-cpp/zip_file.hpp:3290-3298 | an earlier position within the dictionary with the same hash is on the chain, as far along it as there are positions with this hash behind it, if none of them is a multiple of 65536 |
| HashChains.LostLink | third-party/miniz-cpp/zip_file.hpp:3291-3294 | at a multiple of 65536 the chain ends |
| Dictionaries.Dictionary.Probe | third-party/miniz-cpp/zip_file.hpp:3290-3298 | one position on the chain: none, one whose bytes agree, or one that has no longer match |
| Dictionaries.Dictionary.NextProbe | third-party/miniz-cpp/zip_file.hpp:3287-3304 | the next position on the chain that may have a longer match; those passed over on the way have none, and as many have been seen as there were probes for |
| Dictionaries.Dictionary.Compare | third-party/miniz-cpp/zip_file.hpp:3305-3309 | the length found is that of the longest match at this distance within the lookahead |
| Dictionaries.Dictionary.FindMatch | third-party/miniz-cpp/zip_file.hpp:3273-3318 | returns what it was given, or a longer genuine match within distance and lookahead; no match is longer at the positions on the chain for which there are probes, and so at none that has the same hash, is within the dictionary, and has fewer positions of this hash behind it than probes, none of them a multiple of 65536 |
| Dictionaries.Dictionary.FindRun | third-party/miniz-cpp/zip_file.hpp:3612-3618 | returns a genuine match at distance 1 that ends with the lookahead or where the bytes differ |
| Compressors.Compressor.Choose | third-party/miniz-cpp/zip_file.hpp:3605-3633 | the match chosen is genuine and long enough, or there is none; it is the one that the search comes up with, beside which no other that can be reached is longer, unless it is rejected for one of the three reasons |
| Parsers.NotPassedOver | third-party/miniz-cpp/zip_file.hpp:3610-3624 | a match that can be reached and beats what is given, is not passed over: what the search comes up with is as long or longer |
| Parsers.LazyParsing | third-party/miniz-cpp/zip_file.hpp:3634-3662 | a literal is recorded only if no match was chosen at its byte, or a longer one at the next; a match that is chosen is recorded or waits, and one that waits is recorded unless a longer one comes |
| Compressors.Compressor.Record | third-party/miniz-cpp/zip_file.hpp:3634-3662 | the tokens recorded, with the match still saved, stand for the input up to the position after the move, and are those of lazy, greedy or run parsing |
| Parsers.LiteralsAreNeeded | third-party/miniz-cpp/zip_file.hpp:3610-3653 | in a whole parse, a byte for which nothing waits becomes a literal only if no match can be reached, or the one found has three bytes and is 8192 or more away, or is at the distance that is the place in the ring |
| Compressors.Compressor.ParseStep | third-party/miniz-cpp/zip_file.hpp:3602-3667 | each step of the parser is one of a parse of the data with the options given |
| Parsers.ParseStays | third-party/miniz-cpp/zip_file.hpp:3599-3600 | what comes in later does not matter to steps that look ahead as far as a match can go, so the calls that the data come in do not matter to the parse |
| Compressors.Compressor.ParseOne | third-party/miniz-cpp/zip_file.hpp:3604-3680 | one turn of the parser keeps the invariant of tokens, saved match and lookahead, and flushes exactly if the code buffer is nearly full or holds more than 31 KiB that do not compress |
| Compressors.Compressor.NothingWaits | third-party/miniz-cpp/zip_file.hpp:3545-3686 | with the lookahead drained no match is saved, so nothing is lost at the end |
| Compressors.Compressor.BlockStandsFor | third-party/miniz-cpp/zip_file.hpp:3081-3148 | a raw block and a block of the discarded tokens stand for the same bytes |
| Compressors.Compressor.PutBlock | third-party/miniz-cpp/zip_file.hpp:3081-3148 | the tokens go out as a block in the form that the options, the dictionary and the sizes call for |
| Compressors.Compressor.EmitBlock | third-party/miniz-cpp/zip_file.hpp:3081-3209 | the output so far and the bits left over are valid blocks that stand for the input up to the parser's position |
| Compressors.Compressor.FlushBlock | third-party/miniz-cpp/zip_file.hpp:3081-3209 | after the last block the output is a whole stream for all of the input; otherwise the invariant holds again |
| Compressors.Compressor.CompressNormal | third-party/miniz-cpp/zip_file.hpp:3545-3686 | all input is taken in, on a flush the lookahead is drained, and every step has looked ahead as far as the data or a match can go |
| Compressors.Compressor.Compress | third-party/miniz-cpp/zip_file.hpp:3709-3779 | a finishing call completes a stream for all data given so far; other calls keep the invariant; a refused output or a call after the end is an error |
| Deflate.MemToOutput | third-party/miniz-cpp/zip_file.hpp:3831-3848 | the callback gets a whole stream for the data, unless it refuses; its blocks are made of the tokens of a parse of the data with these options, in which no match that can be reached is passed over, and its dynamic headers waste nothing |
| Deflate.RoundTrip | third-party/miniz-cpp/zip_file.hpp:3831-3848 | decompressing what was compressed gives back the data, for all options |
| Deflate.PiecesToOutput | third-party/miniz-cpp/zip_file.hpp:3709-3785 | any number of calls gives a whole stream for the data put together, from such a parse of them |
| Deflate.RoundTripInPieces | third-party/miniz-cpp/zip_file.hpp:3709-3785 | the same however the data come in, the stream is cut up and the room for the output grows |
| Crc32.Crc | third-party/miniz-cpp/zip_file.hpp:1373-1388 | the loop by half bytes continues a checksum by bitwise division by 0xEDB88320 |
| Crc32.CrcBuf | third-party/miniz-cpp/zip_file.hpp:6577-6634 | the loop by bytes gives the bitwise division by 0xEDB88320 |
| Crc32.NibblesDivide | third-party/miniz-cpp/zip_file.hpp:1374-1378 | the table of 16 holds the remainders of its indices |
| Crc32.BytesDivide | third-party/miniz-cpp/zip_file.hpp:6580-6624 | the table of 256 holds the remainders of its indices |
| Crc32.Agree | third-party/miniz-cpp/zip_file.hpp:6957-6972 | both forms give every byte string the same checksum, whole or in two parts |
| Crc32.RemainderConcat | third-party/miniz-cpp/zip_file.hpp:1373-1388 | the checksum of two strings together is the second continued from the first |
| Crc32.BurstDetected | third-party/miniz-cpp/zip_file.hpp:6957-6972 | contents that differ within four neighbouring bytes only, have the same checksum exactly if they are equal |
| Adler32.NoOverflow | third-party/miniz-cpp/zip_file.hpp:1347-1364 | no 32-bit sum overflows within 5552 bytes, from any 16-bit halves |
| Adler32.AddBlock | third-party/miniz-cpp/zip_file.hpp:1351-1363 | a block, eight bytes a pass and then the odd ones, gives the sums reduced after every byte |
| Adler32.Adler | third-party/miniz-cpp/zip_file.hpp:1345-1368 | the whole loop gives the sums reduced after every byte, from any 32-bit start |
| Adler32.InPieces | third-party/miniz-cpp/zip_file.hpp:2366-2391 | one run for each call of the decompressor gives the checksum of its whole output |
| Adler32.Meaning | third-party/miniz-cpp/zip_file.hpp:1345-1368 | from 1, the halves are 1 plus the sum of the bytes and the sum of the first sums, modulo 65521 |
| NameIndex.FilenameLess | third-party/miniz-cpp/zip_file.hpp:4417-4442 | the comparison is the order of names in which upper case is like lower case |
| NameIndex.FilenameCompare | third-party/miniz-cpp/zip_file.hpp:4846-4866 | the result is zero exactly for the same name but for case, and its sign is the order for names below 2 GiB |
| NameIndex.SameNameMeans | third-party/miniz-cpp/zip_file.hpp:4903-4944 | names are the same exactly if they are equally long and each byte is equal, or differs by 32 with the smaller between 65 and 90 |
| NameIndex.LessMeans | third-party/miniz-cpp/zip_file.hpp:4417-4442 | one name comes before another exactly if at the first difference of this kind it ends or has the earlier byte, capitals taken as small letters |
| NameIndex.PrefixLess | third-party/miniz-cpp/zip_file.hpp:4417-4442 | a name comes before all that go on from it |
| NameIndex.SiftDown | third-party/miniz-cpp/zip_file.hpp:4466-4481 | sinking one entry restores the heap, permutes only the heap and changes nothing behind it |
| NameIndex.SortByFilename | third-party/miniz-cpp/zip_file.hpp:4455-4501 | heap sort leaves a permutation of all files in order |
| NameIndex.LocateBinary | third-party/miniz-cpp/zip_file.hpp:4868-4891 | finds a file exactly if some file has the name, as 32 bits count it, but for case |
| NameIndex.LocateScan | third-party/miniz-cpp/zip_file.hpp:4903-4944 | finds the first file with the name but for case, exactly if there is one |
| NameIndex.IndexAgrees | third-party/miniz-cpp/zip_file.hpp:4868-4944 | index and scan agree for all archives exactly if 32 bits hold the length of the name or what they make of it is longer than any name |
| NameIndex.Misled | third-party/miniz-cpp/zip_file.hpp:4868-4891 | for any longer name, an archive in which the index finds a file and the scan does not |
| ZipFormat.LocalFields | third-party/miniz-cpp/zip_file.hpp:5652-5671 | every field of a local header reads back at its offset: signature, version, flags, form, time, date, checksum, both sizes and both lengths |
| ZipFormat.CentralFields | third-party/miniz-cpp/zip_file.hpp:5673-5696 | every field of a central header reads back at its offset; the attributes are 0x10 exactly for names that end in a slash |
| ZipFormat.EndFields | third-party/miniz-cpp/zip_file.hpp:6334-6342 | every field of the end record reads back at its offset |
| ZipFormat.RecordsAt | third-party/miniz-cpp/zip_file.hpp:6307-6359 | the records of the k-th file are where the offsets say |
| ZipReaders.FindEnd | third-party/miniz-cpp/zip_file.hpp:4518-4531 | finds the last signature within the last 4096 bytes, if there is one |
| ZipReaders.ReadHeaders | third-party/miniz-cpp/zip_file.hpp:4590-4626 | accepts a directory that was written exactly if no file has 4 GiB less one byte, and finds each header; of any bytes it accepts, each header lies within the directory |
| ZipReaders.Reader.InitMem | third-party/miniz-cpp/zip_file.hpp:4503-4678 | opens the bytes of an archive that was written exactly under the condition above, with its files in order and a sorted index |
| ZipReaders.Reader.FileStat | third-party/miniz-cpp/zip_file.hpp:4769-4813 | lists of each file its name, comment, sizes, checksum, method, time and place, as they were written |
| ZipReaders.SizeLooksSigned | third-party/miniz-cpp/zip_file.hpp:4523-4531 | a directory of 0x06054B50 bytes is one that hides the end record |
| ZipExtract.Fill | third-party/miniz-cpp/zip_file.hpp:4994-5092 | succeeds exactly if the contents are there, have the listed size and the listed checksum, and then gives them; stored or compressed |
| ZipExtract.FlaggedBits | third-party/miniz-cpp/zip_file.hpp:4981-4983 | what is not extracted for its flags has bit 0 or bit 5 set |
| ZipExtract.ExtractToHeap | third-party/miniz-cpp/zip_file.hpp:4947-5153 | extraction succeeds exactly for the files it should, with a buffer of the listed size |
| ZipExtract.ExtractShown | third-party/miniz-cpp/zip_file.hpp:5119-5153 | every file of an archive that was written is extracted as it was added |
| ZipExtract.ExtractByName | third-party/miniz-cpp/zip_file.hpp:5155-5165 | finds and extracts a file by its name, exactly if there is one |
| ZipWriters.ValidateArchiveName | third-party/miniz-cpp/zip_file.hpp:5742-5754 | no leading slash, no backslash, no colon |
| ZipWriters.ValidNameMeans | third-party/miniz-cpp/zip_file.hpp:5742-5754 | names have no zero byte, colon or backslash, and do not start with a slash |
| ZipWriters.OptionsAt | third-party/miniz-cpp/zip_file.hpp:3911-3940 | the numbers of probes and the mode of each level |
| ZipWriters.Pack | third-party/miniz-cpp/zip_file.hpp:5885-5929 | stores the data, or compresses them with the options of the level to a whole stream that stands for them |
| ZipWriters.Writer.AddToCentralDir | third-party/miniz-cpp/zip_file.hpp:5698-5740 | appends one record and its offset, exactly if 32 bits hold the sizes |
| ZipWriters.Writer.AddMem | third-party/miniz-cpp/zip_file.hpp:5780-5956 | adds the file exactly under the listed conditions; otherwise the files before stay as they were |
| ZipWriters.Writer.AddFromReader | third-party/miniz-cpp/zip_file.hpp:6157-6305 | copies the records of a file unchanged but for the offset, exactly if there is room |
| ZipWriters.Writer.Finalize | third-party/miniz-cpp/zip_file.hpp:6307-6359 | the buffer is the archive of all files added |
| ZipRoundTrip.WriteAll | third-party/miniz-cpp/zip_file.hpp:5780-6359 | writes an archive of all files; for stored files exactly if names, counts and sizes are within bounds |
| ZipRoundTrip.RoundTrip | third-party/miniz-cpp/zip_file.hpp:4503-5153 | what was written is opened exactly under the reader's condition, listed as it was added, and every file comes back |
| ZipRoundTrip.StoredOpens | third-party/miniz-cpp/zip_file.hpp:4503-4633 | for stored files only the signature can keep the archive from being opened |
| ZipRoundTrip.UnluckyRefused | third-party/miniz-cpp/zip_file.hpp:4523-4546 | one stored file for which the writer makes an archive that the reader refuses |
| ZipRoundTrip.Clone | third-party/miniz-cpp/zip_file.hpp:7050-7079 | copying every file of an open archive into a new writer never fails and keeps every entry |
| ZipRoundTrip.Copy | third-party/miniz-cpp/zip_file.hpp:7050-7079 | the closed copy is byte for byte the archive |
| Containers.WaitableContainer.Get | common/containers.hpp:69-75 | takes the oldest item |
| Containers.WaitableContainer.Append | common/containers.hpp:77-81 | the item goes behind all others |
| Containers.WaitableContainer.AppendList | common/containers.hpp:83-96 | the items go behind all others in their order |
| Hosts.OnlyGroupChanges | binance_orders/src/background_threads.cpp:117-126 | among equal keys the comparison of the monitor is that of the groups: the alias is part of the key |
| Hosts.ProcessConcat | binance_orders/src/background_threads.cpp:34-70 | applying two lists of events is applying the first and then the second |
| Hosts.MirrorIsCopy | binance_orders/src/background_threads.cpp:117-120 | hosts that mirror rows with distinct keys are those rows, each once |
| HostSync.AddMissing | binance_orders/src/background_threads.cpp:137-142 | a row of an unknown account is covered when it is added |
| HostSync.AddKnown | binance_orders/src/background_threads.cpp:143-150 | a row of a known account is covered when the first entry takes its group |
| HostSync.RemoveLost | binance_orders/src/background_threads.cpp:153-167 | the entry that goes is the first of its account, and no row loses its entry |
| HostSync.Synchronizer.ProcessHostChanges | binance_orders/src/background_threads.cpp:34-58 | the launcher applies one event to the running streams |
| HostSync.Synchronizer.AddRow | binance_orders/src/background_threads.cpp:137-151 | one pass of the first loop keeps the agreement and covers one row more |
| HostSync.Synchronizer.CheckHost | binance_orders/src/background_threads.cpp:153-167 | one pass of the second loop keeps the agreement and leaves one host less to check |
| HostSync.Synchronizer.EndPoll | binance_orders/src/background_threads.cpp:153-168 | when both loops are over, the hosts mirror the rows |
| HostSync.Synchronizer.MonitorStep | binance_orders/src/background_threads.cpp:128-169 | every turn of the monitor keeps the agreement and brings the end of the poll nearer |
| HostSync.Synchronizer.LauncherStep | binance_orders/src/background_threads.cpp:60-70 | every turn of the launcher keeps the agreement |
| HostSync.Synchronizer.Run | binance_orders/src/background_threads.cpp:34-169 | in every interleaving the waiting events turn the running streams into what the monitor saw, order included; no account is ever watched twice if none was at the start |
| HostSync.Synchronizer.CatchUp | binance_orders/src/background_threads.cpp:34-169 | from every state of a run the streams come to mirror the rows polled last; with distinct keys they are those rows, each once |
| HostSync.DirectAppend | binance_orders/src/background_threads.cpp:34-70 | rows queued without the monitor break the agreement, and exactly when they repeat or are known some account is watched twice |
| HostSync.WatchedTwice | binance_orders/src/background_threads.cpp:137-142 | rows that were queued directly and are then found by the monitor are watched twice |
| Base64.ValueOfLetter | common/crypto.cpp:54-63 | the reverse table undoes the alphabet |
| Base64.Alphabet | common/crypto.cpp:10-11 | the letters are those of table 1 of RFC 4648 |
| Base64.SkippedAre | common/crypto.cpp:66-71 | skipped are the six characters of white space and the padding, and legal are exactly the 64 letters |
| Base64.Encode | common/crypto.cpp:9-42 | the loop, whose 32-bit accumulator is never masked, prints the groups of six bits, padded, and writes up to the position the assertions check |
| Base64.Decode | common/crypto.cpp:53-84 | the loop accepts exactly the texts of letters, white space and padding, and gives their bytes |
| Base64.RoundTrip | common/crypto.cpp:9-84 | parsing what was printed gives back the data |
| Base64.RoundTripSpaced | common/crypto.cpp:66-70 | also with white space anywhere |
| Base64.EndAssertions | common/crypto.cpp:39-40 | the first assertion at the end holds exactly for some data, the second always |

## Left out

The DEFLATE engine:

- Streams that are cut short or not valid: the decompressor's failure states are only reached by them, and the model is given valid streams.
- The zlib header and trailer of compressor and decompressor, and the comparison of the Adler-32 value in the trailer; the checksum itself is `Adler32`.
- Sync and full flush, and output into memory of the caller: compression is modelled with a callback and no flush or a finishing one. The heap forms with their growing buffers only call these.
- `tdefl_compress_fast`, which level 1 takes on little-endian machines, the 64-bit `tdefl_compress_lz_codes` and the variant of `tdefl_find_match` on 16-bit words: unaligned variants of what is modelled.
- The 32-bit bit buffer of the decompressor: the model has the 64-bit one.
- The compressor's constant tables of symbols and extra bits are given by the formula that they tabulate.
- `|` of disjoint bits is written as `+`, and masks as remainders.
- The 32-bit wrap-around of `m_lookahead_pos`: positions are unbounded, and only their remainders by 32768 and by 65536 are used.
- Rings of less than 32768 bytes, with which a distance may reach behind the ring.
- Exact input consumption: the fast path reads ahead, and the model says only that no bit is lost.
- Failure to allocate memory, anywhere.

The ZIP container:

- The backward search for the end record beyond the last 4096 bytes, where the source mixes signed and unsigned sizes; an archive that was written has its end record within them.
- Times are numbers here; their conversion to and from DOS form is left out, as are stdio and user callbacks: archives live in memory.
- File offset alignment, data that come already compressed, data descriptors and a reserved beginning of the archive.
- Compressed data go into the archive in one piece, when the compressor has put out all of it.
- Extraction to a callback, and extraction of compressed contents that are not a valid stream.
- ZipWriters.Writer.AddFromReader: promises nothing about the writer after a failure, because the source leaves the directory half written then and its caller gives up.
- ZipRoundTrip.WriteAll: says exactly when it succeeds for stored files only, because the size of compressed files is not known beforehand.
- The scan with its options for case, path and comment: the model has the plain one.
- Archive comments, the PNG writer and the C++ wrapper class but for the copying of all files.

The host reconciliation:

- Real threads, locks and condition variables: a turn of a thread is one pass of a loop, and taking from an empty queue is a turn not taken.
- Both threads start from the same rows; in the source they read them from the database one after the other.
- The streams themselves, their sockets and the database.

Base64:

- White space is that of the C locale, and characters of 128 and more are illegal; the copy of a `std::string` into bytes is left out.

The rest of the repository is input and output over Boost, SQL text, JSON fields, message formats, configuration
and wrappers of foreign code, and would add easy members only.
