# Verified model of libdatarec

libdatarec carves files out of raw disks and ships the Independent JPEG Group's compressor. This project models its
three most intricate parts in Dafny and proves what they are for. `dafny verify dfyconfig.toml` checks everything.

**JPEG Huffman entropy coder** (`jchuff.c`; ITU-T T.81, Annex C, sections F.1.2 and K.2). The modules follow the source:
`DerivedTables` (validation and canonical codes), `BitPacker`, `BlockEncoder`, `McuEncoder` and `EntropyEncoder` (bit
packer, byte stuffing, blocks, restart markers, suspension), `HuffmanBuilder`, `LengthLimit` and `OptimalTable` (table
generation), `Statistics`, `GatherPass`, `TwoPass` and `OptimizedCoding` (the statistics pass and coding with its
tables). Specifications stand beside them: `Symbols` and `Scans` say which Huffman symbols, additional bits and markers
a scan consists of, `Emissions` which bytes these are, `BlockDecoder` and `ScanDecoder` are the decoder of section F.2.2
of T.81 written as functions, `HuffmanForest` is what the arrays of the tree builder stand for, `FrequencyLimits` and
`StoppedForests` say for which counts its searches succeed and what is left behind when they do not, `TableOrders` gives
the generated table as a function of the counts. `BlockLayouts` and `ScanLayouts` give a block and a scan in closed
form, and `Examples` works one scan out to its bytes. The arrays, the 24-bit accumulator, the working state and the
destination are updated in place as in C, and each method is proved against these functions. The main results are

- the round trip: whatever is written decodes to the coefficients given, restarts and suspensions included
  (`ScanRoundTrip`, `EncodeMcus`, `CompressScan`), and with a buffer longer than any MCU suspensions only delay the end;
- the layout: exactly which symbols, in zigzag order and with which prediction, and which markers are written
  (`BlockLayout`, `ScanLayout`, `OnlyZigzag`), and which bytes for one scan (`ExampleBytes`);
- optimality: the code lengths are the best possible (`NoBetterPrefixCode`, over all prefix codes), the length of the
  pseudo-symbol 256 is the longest (`PseudoLongest`), more frequent symbols never have longer Huffman codes
  (`FrequentSizes`), and unless lengths had to be limited the finished table keeps them (`LengthsKept`);
- the two passes agree: counts are exactly the symbols written, generated tables are always accepted and never lack a
  code unless the counts exceed what the generator can select from, and then the scan is never completed (`GatherScan`,
  `GeneratedUsable`, `NeverMissing`, `BeyondLimit`, `OptimizeAndEncode`).

**Coefficient controller** (`jccoefct.c`, geometry from `jcmaster.c`). `Pictures` defines the MCUs of an image, dummy
blocks included, for a scan over any choice of its components, and `VirtualArrays` their place between passes;
`CoefControllers` proves that the single-pass and the multi-pass code, running against the Huffman encoder (`McuSinks`),
both hand over exactly these MCUs, each once and in raster order, however often the encoder suspends. `ImageCompression`
concludes that all modes commit the same bytes and that these decode to the image (`CompressImage`, `SameBytes`).
`ImageLayouts` says where every block of the image stands in its scan and how it is coded (`InterleavedCoverage`).
`DummyBits` says for which tables dummy blocks are the cheapest blocks (`DummyFewestBits`).

**Carving search space and disk access** (`list.h`, `pnext.h`, `psearch.h`, `alignio.h`). `Rings` proves the pointer
operations of the intrusive ring against sequences of nodes, `SortedInsertion` the laws of sorted insertion and the
comparison functions used with it, `SearchSpaces` the walk over the blocks and the splitting of ranges, `AlignedIO` that
aligned reads and writes amount to a plain byte array.

## Where the code does less than promised

- A count returned by `align_pread` can exceed the bytes delivered (`ShortReadOverstated`, with an input in
  `ShortReadExample`). Before the call: no result of the raw read makes it do so if and only if the request starts at a
  sector boundary or its sectors lie behind the end of the device (`CountHonest`).
- `align_pwrite` goes on after a pre-read that did not deliver all sectors: after a failed one, which is logged, and
  after a partial one, which is not. Neighbouring bytes are then overwritten. A pre-read is enough, whatever the buffer
  held, if and only if it is complete or it reaches the data and nothing follows these (`PreReadSuffices`); with
  `file_pread_aux`, which fills up with zeros, exactly the nonzero neighbours beyond the bytes read are lost
  (`ZeroFilledPreRead`). Before the call: the write is exact for every outcome of the pre-read if and only if offset and
  count are whole sectors (`AlwaysExact`).
- The buffer growth loops never end for sizes above 2^31 (`GrowthStops`), and the asserted `count_new >= count` fails
  when the rounded size needs more than 32 bits (`CountNewEnough`).
- `spacerange_cmp` cuts a 64-bit difference to an `int`. Over all ranges, different ones can count as equal and the
  order can run in a circle (`SpaceRangeEqual`, `SpaceRangeFaults`). Where ranges that start together end less than 2^31
  apart it is a proper comparison (`SpaceRangeThreeWay`). The command line inserts only ranges whose start equals their
  end, and there the list stays sorted and holds exactly the numbers given that are of the kind of the first one, group
  or inode numbers, each once (`SpaceOfNumbers`).
- `signature_cmp` never reports equality, which `td_list_add_sorted` does not need (`SignatureOrdered`).
- The searches of `jpeg_gen_optimal_table` start from 1000000000, so a head with a larger frequency is never selected.
  The merging is complete if and only if no head but the last one exceeds that value (`LimitExact`). Otherwise there is
  no table, or it lacks a code for a counted symbol, or it is refused (`GenOptimalTable`, `SizesKraft`), and if every
  symbol exceeds the value, the search for the longest code leaves its array (`NothingMerged`). A total up to that value
  is enough (`TotalWithinLimit`, `FewSymbols`), a single larger count beside others is too much (`TooFrequent`).
- The dummy block is the cheapest block in operations (`DummyCheapest`); in bits it is so exactly for tables in which no
  DC category is shorter than category 0, additional bits included, and no way to code all 63 AC coefficients is shorter
  than EOB (`DummyFewestBits`).

Two remarks of `jchuff.c` are settled. That symbol 256 ends up in the largest code length category is right
(`PseudoLongest`). That the changed code lengths need not be considered when the symbols are listed is right in so far
as a shorter Huffman code never gets a longer code in the table (`OrderKept`), and if no Huffman code is longer than 16
bits, more frequent symbols never have longer codes (`FrequentKept`). After limiting they can, but only when their
Huffman codes are equally long and the more frequent symbol is the larger number (`FrequentInTable`), as for the counts
of `FrequentLonger`. Exactly when this happens can be told from the counts: the table favours frequent symbols if and
only if, wherever limiting separates symbols of equal Huffman code length, those listed first are at least as frequent
(`FavoursExactly`).

## Model

| member | source | states |
|---|---|---|
| DerivedTables.MakeDerivedTable | libdatarec/3rd_lib_src/libjpg/jchuff.c:179-264 | A Huffman table is accepted if and only if its slot is present, it has at most 256 symbols, its Kraft sum is strictly below one and its values are distinct and in range for the class (at most 15 for DC); otherwise the error distinguishes a missing table from a bad one. On success the code and length of every symbol are the canonical ones and all other symbols have length 0. |
| DerivedTables.MakeSizes | libdatarec/3rd_lib_src/libjpg/jchuff.c:208-219 | The list of code lengths is refused exactly when there are more than 256 codes; position by position it is the length of the canonical code. |
| DerivedTables.MakeCodes | libdatarec/3rd_lib_src/libjpg/jchuff.c:221-239 | Refused exactly when the lengths leave no room for a code word other than all ones (Kraft sum not below one), although the source tests one length at a time; else the canonical codes. |
| DerivedTables.FillTable | libdatarec/3rd_lib_src/libjpg/jchuff.c:241-263 | Refused exactly when a value is out of range or repeated; else codes and lengths indexed by symbol. |
| HuffmanTable.KraftFails | libdatarec/3rd_lib_src/libjpg/jchuff.c:232-236 | A failing test at one length means that the Kraft sum over all lengths is at least one. |
| HuffmanTable.KraftHolds | libdatarec/3rd_lib_src/libjpg/jchuff.c:232-236 | A passing test at the last length in use means that the Kraft sum over all lengths is below one. |
| HuffmanTable.CodeNotAllOnes | libdatarec/3rd_lib_src/libjpg/jchuff.c:232-236 | Every code of an accepted table fits its length and is not all ones. |
| HuffmanTable.PrefixFree | libdatarec/3rd_lib_src/libjpg/jchuff.c:221-239 | No code of an accepted table is a prefix of another one. |
| HuffmanTable.DecodeCode | libdatarec/3rd_lib_src/libjpg/jdhuff.c:397-433 | The decoding procedure of figure F.16 of T.81, run on any canonical code followed by anything, finds its symbol and leaves what follows. |
| HuffmanTable.PaddingIsNoCode | libdatarec/3rd_lib_src/libjpg/jchuff.c:340-347 | Any number of one-bits, the padding before a marker, never completes a code of an accepted table. |
| BitPacker.WorkingState.EmitByte | libdatarec/3rd_lib_src/libjpg/jchuff.c:269-289 | A byte is appended to what the destination has been given; false exactly when a suspending destination would be filled, and then its pointers and the bytes before them are as they were. |
| BitPacker.WorkingState.EmitBits | libdatarec/3rd_lib_src/libjpg/jchuff.c:300-336 | The low size bits join the bit string; exactly its complete bytes go out, each 0xFF followed by a zero byte; at most 7 bits stay pending with zeros below them in the 24-bit accumulator; size 0 is the missing-code error; it suspends exactly when the stuffed bytes do not fit with one byte of room left. |
| BitPacker.WorkingState.FlushBits | libdatarec/3rd_lib_src/libjpg/jchuff.c:339-347 | The last partial byte is completed with one-bits and the bit buffer is empty afterwards. |
| BitPacker.Destination.EmptyOutputBuffer | libdatarec/3rd_lib_src/libjpg/jdatadst.c:80-93 | The whole buffer goes to the file and the pointers are reset; a suspending destination refuses and changes nothing. |
| BlockDecoder.RunConcatenates | libdatarec/3rd_lib_src/libjpg/jchuff.c:294-336 | For every run of codes without a marker, the bytes written are the stuffed complete bytes of the concatenation of all codes and the pending bits are the rest of it. |
| Bits.UnstuffStuff | libdatarec/3rd_lib_src/libjpg/jchuff.c:321-330 | Removing stuffed bytes gives back the data bytes, whatever follows them. |
| Bits.BytesRoundTrip | libdatarec/3rd_lib_src/libjpg/jchuff.c:321-333 | The complete bytes of a bit string followed by what is left over are the bit string. |
| ZigzagScan.ZigzagOfNatural | libdatarec/3rd_lib_src/libjpg/jutils.c:24-64 | jpeg_natural_order and jpeg_zigzag_order are inverse permutations of 0..63. |
| ZigzagScan.NaturalFollows | libdatarec/3rd_lib_src/libjpg/jutils.c:24-64 | From each position of jpeg_natural_order the next one is up and to the right on diagonals of even number, down and to the left on the others, and along the border where a diagonal ends. |
| ZigzagScan.OnlyZigzag | libdatarec/3rd_lib_src/libjpg/jutils.c:24-64 | This determines the order: a list of 64 positions is jpeg_natural_order if and only if it starts in the corner and goes that way. |
| Symbols.BlockBad | libdatarec/3rd_lib_src/libjpg/jchuff.c:371-421 | The symbols of a block are cut short exactly when its DC difference needs more than 11 bits or an AC coefficient more than 10. |
| BlockLayouts.BlockLayout | libdatarec/3rd_lib_src/libjpg/jchuff.c:352-443 | A block in closed form, without a run counter. It can be coded if and only if the DC difference is in -2047..2047 and all AC coefficients are in -1023..1023. Then come the category of tables F.1 and F.2 of T.81 and the bits of the difference, and for each nonzero AC coefficient in zigzag order one symbol 0xF0 per sixteen zeros before it, the symbol of the other zeros and the category, and its bits; last 0x00, unless the last coefficient is nonzero. |
| BlockEncoder.EncodeOneBlock | libdatarec/3rd_lib_src/libjpg/jchuff.c:352-443 | Outcome and bytes are those of the reference symbol string of the block: DC category and bits, run/size symbols with additional bits, one ZRL per sixteen zeros before a coefficient, EOB for trailing zeros; errors and suspension at the first place where the reference has them. |
| BlockEncoder.EncodeDc | libdatarec/3rd_lib_src/libjpg/jchuff.c:360-391 | The DC part of the same. |
| BlockEncoder.EncodeAc | libdatarec/3rd_lib_src/libjpg/jchuff.c:393-440 | The AC part of the same. |
| BlockDecoder.ExtendInverts | libdatarec/3rd_lib_src/libjpg/jdhuff.c:441-459 | HUFF_EXTEND undoes the encoding of a nonzero value by its category and additional bits, negative values included. |
| BlockDecoder.BlockDecodes | libdatarec/3rd_lib_src/libjpg/jdhuff.c:548-592 | Decoding the bits of an encodable block, whatever follows, gives back all 64 coefficients and leaves what follows. |
| McuEncoder.EmitRestart | libdatarec/3rd_lib_src/libjpg/jchuff.c:450-468 | Bit buffer flushed, marker RSTn written unstuffed, the prediction of every component 0. |
| McuEncoder.WriteMcu | libdatarec/3rd_lib_src/libjpg/jchuff.c:489-511 | Marker when due, then the blocks of the MCU, each predicted from the previous block of its component. |
| Scans.RestartCounters | libdatarec/3rd_lib_src/libjpg/jchuff.c:513-524 | After q whole intervals and j more MCUs, restarts_to_go is the interval minus j and next_restart_num is q mod 8. |
| Scans.RestartDiscipline | libdatarec/3rd_lib_src/libjpg/jchuff.c:489-524 | For every scan with interval R > 0 a marker precedes MCU m exactly when m > 0 and R divides m, and the n-th marker is RST(n mod 8). |
| ScanLayouts.ScanLayout | libdatarec/3rd_lib_src/libjpg/jchuff.c:475-525 | A scan in closed form. It can be coded if and only if every block is in range for its prediction, which is the DC value of the block of its component before it, and 0 for the first one of the scan and of each restart interval. It then consists of the blocks in order, each with the tables of its component, and RST((m / R - 1) mod 8) in front of every MCU m > 0 that the interval R divides. |
| EntropyEncoder.HuffEntropyEncoder.StartPass | libdatarec/3rd_lib_src/libjpg/jchuff.c:105-168 | Succeeds exactly when every table needed is present and acceptable; then all predictions are 0, no marker has been written, a whole interval is left and the bit buffer is empty. |
| EntropyEncoder.HuffEntropyEncoder.EncodeMcu | libdatarec/3rd_lib_src/libjpg/jchuff.c:475-525 | A completed MCU commits exactly the bytes of its reference string and advances prediction and restart state; otherwise the permanent state is unchanged, and so is a suspending destination. |
| EntropyEncoder.HuffEntropyEncoder.FinishPass | libdatarec/3rd_lib_src/libjpg/jchuff.c:532-552 | The last bits are flushed; a destination that would suspend is the error CANT_SUSPEND and is left unchanged. |
| EntropyEncoder.EncodeMcus | libdatarec/3rd_lib_src/libjpg/jchuff.c:475-525 | For every pattern of suspensions, retries and buffer drains, what has been committed is what one unlimited buffer would hold for the MCUs done so far; an error is an error of the reference as well. With enough offers, and if the destination suspends, room made before each in a buffer longer than every MCU, all MCUs are done. |
| McuSizes.McuSize | libdatarec/3rd_lib_src/libjpg/jchuff.c:352-525 | With any tables an MCU takes at most 5124 bytes, stuffing, flush and marker included. |
| EntropyEncoder.RoomyAlways | libdatarec/3rd_lib_src/libjpg/jchuff.c:475-525 | So a buffer of more than 5124 bytes is longer than every MCU of every scan. |
| EntropyEncoder.OfferMcu | libdatarec/3rd_lib_src/libjpg/jchuff.c:475-525 | One offer either commits the next MCU of the reference, or suspends and changes nothing, or fails where the reference fails. |
| EntropyEncoder.PrefixNotWritable | libdatarec/3rd_lib_src/libjpg/jchuff.c:475-525 | If an initial part of a scan cannot be written, the whole scan cannot. |
| ScanDecoder.ScanRoundTrip | libdatarec/3rd_lib_src/libjpg/jchuff.c:352-525 | For every sequence of in-range MCUs, every accepted tables that code the symbols used and every restart interval, unstuffing and decoding the bytes written recovers every coefficient of every block. |
| ScanDecoder.McusDecode | libdatarec/3rd_lib_src/libjpg/jdhuff.c:516-627 | The same from any point of the scan, with any number of padding bits before the next marker. |
| EntropyEncoder.ReferenceDecodes | libdatarec/3rd_lib_src/libjpg/jchuff.c:475-552 | The bytes of the reference emission plus the final flush decode, with the tables sent, to the scan. |
| EntropyEncoder.CompressScan | libdatarec/3rd_lib_src/libjpg/jchuff.c:105-552 | A whole pass under any pattern of suspensions: if it completes, the bytes committed are those of the reference emission and decode to the MCUs given. With acceptable tables, enough offers and, if the destination suspends, room made before each and at the end, it completes if and only if every symbol and coefficient of the scan can be coded. |
| Examples.ExampleBytes | libdatarec/3rd_lib_src/libjpg/jchuff.c:179-552 | A scan worked out to its bytes: for two components, four given tables and a restart after every MCU, the bytes committed are 28 CF 44 FF 00 F5 3F FF D0 2C D3 7F, with canonical codes, zero runs, negative values, a block without end symbol, a stuffed byte, padding and a marker. |
| HuffmanBuilder.FindSmallest | libdatarec/3rd_lib_src/libjpg/jchuff.c:732-751 | The smallest nonzero frequency up to 1000000000 other than the excluded one, ties to the larger symbol; none exactly when there is no such frequency. |
| HuffmanBuilder.Merge | libdatarec/3rd_lib_src/libjpg/jchuff.c:758-775 | The arrays after a round represent the forest in which the two trees are joined: chains appended, code sizes of both branches one larger, frequency moved. |
| HuffmanForest.MergeOk | libdatarec/3rd_lib_src/libjpg/jchuff.c:758-775 | Every round keeps the invariant: the others chains of the heads are acyclic and partition the symbols in use, code sizes are depths, the total frequency is conserved; the number of heads drops by one. |
| HuffmanForest.HeadKraft | libdatarec/3rd_lib_src/libjpg/jchuff.c:730-776 | At every stage the sum of 2^-codesize over each head's chain is exactly one. |
| HuffmanForest.DepthsComplete | libdatarec/3rd_lib_src/libjpg/jchuff.c:730-776 | So it is for all symbols in use when the merging ends. |
| FrequencyLimits.TotalWithinLimit | libdatarec/3rd_lib_src/libjpg/jchuff.c:732-751 | If all frequencies add up to at most 1000000000, every search of the tree builder finds what it has to. |
| FrequencyLimits.TooFrequent | libdatarec/3rd_lib_src/libjpg/jchuff.c:732-751 | If one head exceeds 1000000000 while another is left, they do not. |
| HuffmanOptimality.MergeStep | libdatarec/3rd_lib_src/libjpg/jchuff.c:728-776 | Any feasible assignment of lengths is at least as expensive as some feasible one for the merged frequencies plus the two merged frequencies. |
| PrefixCodes.PrefixCodeFeasible | libdatarec/3rd_lib_src/libjpg/jchuff.c:728-776 | Kraft's inequality: the lengths of any prefix code are feasible. |
| HuffmanBuilder.BuildCodeSizes | libdatarec/3rd_lib_src/libjpg/jchuff.c:728-776 | If no head but the last one exceeds 1000000000, the code sizes are depths of one tree over exactly the symbols in use, of minimal cost among all feasible assignments, and equal to those of merging the two smallest with ties to the larger symbol; otherwise the merging stops early and their Kraft sum is at least two. |
| HuffmanBuilder.LimitExact | libdatarec/3rd_lib_src/libjpg/jchuff.c:732-756 | The code sizes meet the Kraft inequality if and only if no head but the last one exceeds 1000000000. |
| StoppedForests.StoppedFacts | libdatarec/3rd_lib_src/libjpg/jchuff.c:732-756 | The merging stops early if and only if a head but the last one exceeds 1000000000; in any case 256 is as deep as any symbol then. |
| StoppedForests.SizesKraft | libdatarec/3rd_lib_src/libjpg/jchuff.c:730-776 | The Kraft sum of the code sizes is then a whole number: none if nothing was merged, and if it is one although the merging stopped early, some symbol that occurs has no code size. |
| StoppedForests.NothingMerged | libdatarec/3rd_lib_src/libjpg/jchuff.c:732-756 | Nothing is merged if and only if every symbol but 256 occurs more than 1000000000 times. |
| OptimalTable.NoBetterPrefixCode | libdatarec/3rd_lib_src/libjpg/jchuff.c:728-776 | Before length limiting, no prefix code for the used symbols and 256 has a smaller sum of frequency times length. |
| OptimalTable.LongCodesNeedData | libdatarec/3rd_lib_src/libjpg/jchuff.c:728-776 | A code of length d needs a total frequency of at least Fib(d + 2). |
| OptimalTable.NoOverflow | libdatarec/3rd_lib_src/libjpg/jchuff.c:707-788 | A total below Fib(35) = 9227465 cannot give a code of more than MAX_CLEN = 32 bits. |
| PseudoSymbols.MergeLeads | libdatarec/3rd_lib_src/libjpg/jchuff.c:722-775 | Every round keeps 256 at the bottom of its tree, and every other tree as high as that one is merged after it. |
| PseudoSymbols.PseudoLongest | libdatarec/3rd_lib_src/libjpg/jchuff.c:722-727 | The promise of the comment: 256 ends up in the largest code length category, for all frequencies. |
| OptimalTable.CountLengths | libdatarec/3rd_lib_src/libjpg/jchuff.c:778-788 | The histogram of the code sizes, its counters never wrapping; overflow exactly when a code is longer than 32 bits. |
| LengthLimit.EvenBelow | libdatarec/3rd_lib_src/libjpg/jchuff.c:801-808 | If the Kraft sum is a whole number, the number of codes of the longest length is even, so two can always be removed. |
| LengthLimit.ShorterCodeExists | libdatarec/3rd_lib_src/libjpg/jchuff.c:803-805 | The search for a shorter length always ends at some length of at least 1. |
| LengthLimit.AdjustedComplete | libdatarec/3rd_lib_src/libjpg/jchuff.c:807-810 | One adjustment keeps the number of codes and the Kraft sum. |
| LengthLimit.AdjustOnce | libdatarec/3rd_lib_src/libjpg/jchuff.c:803-810 | The loop body performs exactly that adjustment, at the longest length in use below i - 1. |
| LengthLimit.LimitLengths | libdatarec/3rd_lib_src/libjpg/jchuff.c:801-812 | Afterwards no code is longer than 16 bits, the number of codes and the Kraft sum are the same; the result is that of the reference procedure. Nothing happens without any code. |
| LengthLimit.LimitedShort | libdatarec/3rd_lib_src/libjpg/jchuff.c:801-812 | A histogram without long codes is left as it is. |
| LengthLimit.DropLongest | libdatarec/3rd_lib_src/libjpg/jchuff.c:814-817 | Exactly one code of the longest length in use is given up; the search leaves the array exactly if there is no code. |
| OptimalTable.ListSymbols | libdatarec/3rd_lib_src/libjpg/jchuff.c:822-834 | The real symbols in use, by code size and then by symbol, each at its rank. |
| OptimalTable.GenOptimalTable | libdatarec/3rd_lib_src/libjpg/jchuff.c:705-838 | For all counts. Overflow exactly when a code size is longer than 32 bits, no code exactly when every symbol occurs more than 1000000000 times. Within the limit of the searches the table codes exactly the symbols with nonzero count, has lengths 1..16 and Kraft sum below one, and its counts are the limited histogram; beyond it, a counted symbol has no place in the table or the Kraft sum is at least one. |
| OptimalTable.HugeCount | libdatarec/3rd_lib_src/libjpg/jchuff.c:732-751 | A count above 1000000000 is beyond what the tree builder can select, whatever the other counts. |
| OptimalTable.GoodTableAcceptable | libdatarec/3rd_lib_src/libjpg/jchuff.c:255-263 | A generated AC table is always accepted, a DC table if and only if no symbol above 15 was counted. |
| OptimalTable.OrderKept | libdatarec/3rd_lib_src/libjpg/jchuff.c:823-826 | The point the source is unsure of: after limiting, a symbol with a shorter Huffman code still never gets a longer code than another. |
| ShortCodes.LongestIsPseudo | libdatarec/3rd_lib_src/libjpg/jchuff.c:814-817 | The length from which the count of 256 is removed is that of 256. |
| ShortCodes.LengthsKept | libdatarec/3rd_lib_src/libjpg/jchuff.c:778-834 | If no Huffman code is longer than 16 bits, every real symbol has its Huffman code length in the table. |
| ShortCodes.TableOptimal | libdatarec/3rd_lib_src/libjpg/jchuff.c:705-838 | Hence no prefix code for the symbols and one spare code word takes fewer bits than such a table. |
| ShortCodes.FrequentShorter | libdatarec/3rd_lib_src/libjpg/jchuff.c:728-776 | In any code that the tree builder produces, of two symbols in use the more frequent one does not have the longer code. |
| ShortCodes.FrequentSizes | libdatarec/3rd_lib_src/libjpg/jchuff.c:728-776 | So it is for the Huffman code lengths of any counts. |
| ShortCodes.FrequentKept | libdatarec/3rd_lib_src/libjpg/jchuff.c:705-838 | If no Huffman code is longer than 16 bits, the same holds for the codes of the table. |
| ShortCodes.FrequentInTable | libdatarec/3rd_lib_src/libjpg/jchuff.c:790-834 | In any generated table the more frequent of two symbols can have the longer code only if their Huffman codes are equally long and it is the larger number. |
| TableOrders.TableDetermined | libdatarec/3rd_lib_src/libjpg/jchuff.c:705-838 | The table is a function of the counts: its BITS are the limited histogram of the Huffman code lengths without one longest code, and each symbol stands at its rank by code length and number. |
| TableOrders.FavoursExactly | libdatarec/3rd_lib_src/libjpg/jchuff.c:790-834 | In the table for given counts no more frequent symbol has a longer code if and only if, wherever the table separates two symbols of equal Huffman code length, the one listed first is at least as frequent; a condition on the counts alone. |
| SplitLengths.FrequentLonger | libdatarec/3rd_lib_src/libjpg/jchuff.c:790-834 | Counts for which they do not: 7 and 8 occurrences, Huffman codes of 15 bits, and codes of 15 and 16 bits in the table. |
| SplitLengths.LongerCode | libdatarec/3rd_lib_src/libjpg/jchuff.c:705-838 | jpeg_gen_optimal_table generates that table from these counts. |
| Statistics.CountBlock | libdatarec/3rd_lib_src/libjpg/jchuff.c:571-636 | The counts grow by exactly the Huffman symbols that encode_one_block writes for the same block and prediction; it fails exactly when that one meets an out-of-range coefficient. |
| Statistics.CountDc | libdatarec/3rd_lib_src/libjpg/jchuff.c:579-598 | The DC part of the same. |
| Statistics.CountAc | libdatarec/3rd_lib_src/libjpg/jchuff.c:600-635 | The AC part of the same. |
| GatherPass.StatisticsPass.StartGather | libdatarec/3rd_lib_src/libjpg/jchuff.c:128-167 | All counts used by the scan are zero, all predictions 0, a whole interval is left and no marker is due. |
| GatherPass.StatisticsPass.GatherMcu | libdatarec/3rd_lib_src/libjpg/jchuff.c:644-673 | Every count of every table grows by the number of times encode_mcu_huff writes the symbol for this MCU, with the same prediction resets. |
| TwoPass.GatherScan | libdatarec/3rd_lib_src/libjpg/jchuff.c:644-673 | The same for every sequence of MCUs and every restart interval. |
| TwoPass.CountsReady | libdatarec/3rd_lib_src/libjpg/jchuff.c:571-636 | The counts of a scan meet the demands of the table generator: at least one and at most 254 symbols in use, DC symbols at most 15. |
| TwoPass.FinishGather | libdatarec/3rd_lib_src/libjpg/jchuff.c:845-880 | Each table slot in use gets the table generated from its own counts, once, also when components share it; it fails exactly when one of these counts has a code size of more than 32 bits or none at all, and says which. |
| OptimizedCoding.GeneratedUsable | libdatarec/3rd_lib_src/libjpg/jchuff.c:845-880 | All generated tables are accepted by jpeg_make_c_derived_tbl. |
| OptimizedCoding.NeverMissing | libdatarec/3rd_lib_src/libjpg/jchuff.c:310-311 | With tables generated from its own counts no symbol of a scan is ever without a code. |
| OptimizedCoding.TablesServe | libdatarec/3rd_lib_src/libjpg/jchuff.c:560-673 | Together: with the generated tables the whole scan can be written. |
| OptimizedCoding.OverflowNeedsData | libdatarec/3rd_lib_src/libjpg/jchuff.c:784-785 | JERR_HUFF_CLEN_OVERFLOW, a Huffman code of more than 32 bits in any table, takes a scan of at least 9227464 symbols. |
| OptimizedCoding.FewSymbols | libdatarec/3rd_lib_src/libjpg/jchuff.c:732-751 | A table of whose symbols the scan writes fewer than 1000000000 stays within the limit of the tree builder. |
| OptimizedCoding.BeyondLimit | libdatarec/3rd_lib_src/libjpg/jchuff.c:845-880 | If the counts of some table exceed the limit of the searches, the tables made from the counts never write the scan: one is refused or lacks a code. |
| OptimizedCoding.OptimizeAndEncode | libdatarec/3rd_lib_src/libjpg/jchuff.c:105-880 | Two-pass coding end to end, for every scan: out-of-range coefficients are reported exactly when there are any, a table without usable code lengths exactly when there is one; what is completed decodes, with the generated tables, to the MCUs given. A scan beyond the limit of the table generator is never completed, any other is if all MCUs are offered and a suspending destination is given room for each. |
| Pictures.SetupGroups | libdatarec/3rd_lib_src/libjpg/jcmaster.c:93-123 | The sizes that initial_setup computes, rounded up to blocks of 8 samples and to MCUs, always form whole MCUs of which only the last can be partly empty. |
| Pictures.RealColumns | libdatarec/3rd_lib_src/libjpg/jcmaster.c:366-371 | last_col_width separates the real block columns of the last MCU from the dummy ones. |
| Pictures.DummyRepeatsDc | libdatarec/3rd_lib_src/libjpg/jccoefct.c:161-196 | Every dummy block, at the right and at the bottom, has no AC coefficients and the DC value of the block preceding it in the MCU. |
| Pictures.DummyCheapest | libdatarec/3rd_lib_src/libjpg/jccoefct.c:161-165 | "Smallest amount of data", in operations (Huffman symbols and groups of additional bits): every encodable block costs at least two, and the block that repeats the predicted DC value is the only one that costs no more. |
| DummyBits.DummyFewestBits | libdatarec/3rd_lib_src/libjpg/jccoefct.c:161-165 | In bits: with given tables no block that can be coded takes fewer bits than that one if and only if no DC category, additional bits included, is shorter than category 0 and EOB is not longer than the cheapest way to code the AC coefficients up to a nonzero last one. |
| DummyBits.FullCostLeast | libdatarec/3rd_lib_src/libjpg/jchuff.c:393-440 | AC coefficients with a nonzero last one take at least the bits that the shortest-path recursion over position and run gives. |
| DummyBits.FullCostReached | libdatarec/3rd_lib_src/libjpg/jchuff.c:393-440 | And some block takes exactly these. |
| Pictures.AcCost | libdatarec/3rd_lib_src/libjpg/jchuff.c:393-440 | AC coefficients cost one symbol exactly when all are zero. |
| Pictures.McuRowsInScan | libdatarec/3rd_lib_src/libjpg/jcmaster.c:320-354 | The iMCU rows contain MCU_rows_in_scan MCU rows. |
| Pictures.RasterOrder | libdatarec/3rd_lib_src/libjpg/jccoefct.c:154-217 | Every MCU of the scan stands at its raster position. |
| Pictures.ComponentScan | libdatarec/3rd_lib_src/libjpg/jccoefct.c:71-92 | A noninterleaved scan of a component of any image consists of exactly the real blocks of that component in raster order, one to an MCU, although its array is padded with dummy blocks. |
| Pictures.PaddedForAll | libdatarec/3rd_lib_src/libjpg/jccoefct.c:231-242 | What is stored for a component does not depend on the scan during which it is stored. |
| CoefControllers.CoefController.constructor | libdatarec/3rd_lib_src/libjpg/jccoefct.c:404-449 | Virtual arrays padded to whole MCUs exactly when a full buffer is needed. |
| CoefControllers.CoefController.StartIMcuRow | libdatarec/3rd_lib_src/libjpg/jccoefct.c:71-92 | Counters for the row: one MCU row if interleaved, else v_samp_factor or what is left at the bottom. |
| CoefControllers.CoefController.BuildMcu | libdatarec/3rd_lib_src/libjpg/jccoefct.c:167-200 | The blocks built from the samples, dummy blocks included, are those of the MCU. |
| CoefControllers.CoefController.BlockRow | libdatarec/3rd_lib_src/libjpg/jccoefct.c:170-196 | One row of blocks of a component in the MCU buffer: real, right dummy or bottom dummy blocks. |
| CoefControllers.CoefController.CompressData | libdatarec/3rd_lib_src/libjpg/jccoefct.c:142-218 | Against the Huffman encoder, under any suspensions, the MCUs taken are the scan up to the stored counters, each once, in raster order; false exactly when the encoder suspended, once, or failed, at the next MCU; the row number advances exactly when true is returned; without progress only if the buffer had no room for an MCU. |
| VirtualArrays.StoreStrip | libdatarec/3rd_lib_src/libjpg/jccoefct.c:258-319 | The virtual array of a component holds the padded component up to the end of the strip; rows below are untouched. |
| CoefControllers.CoefController.GatherMcu | libdatarec/3rd_lib_src/libjpg/jccoefct.c:368-379 | The blocks taken from the virtual arrays are those of the same MCU. |
| CoefControllers.CoefController.CompressFirstPass | libdatarec/3rd_lib_src/libjpg/jccoefct.c:244-327 | As compress_data, for a scan over any of the components, and the strips of all components are stored for later passes, however often this is redone. |
| CoefControllers.CoefController.CompressOutput | libdatarec/3rd_lib_src/libjpg/jccoefct.c:340-395 | As compress_data, for a scan over any of the components, interleaved or not, from the arrays. |
| CoefControllers.CoefController.StartPass | libdatarec/3rd_lib_src/libjpg/jccoefct.c:99-129 | A pass over the given components starts at its first MCU; JERR_BAD_BUFFER_MODE exactly when the mode does not match the presence of virtual arrays. The arrays filled by an earlier scan serve this one. |
| McuSinks.McuSink.EncodeMcu | libdatarec/3rd_lib_src/libjpg/jccoefct.c:201-209 | A call of encode_mcu by the controller commits the MCU as the reference does, or suspends without taking it, which needs a destination with at most 5124 bytes of room, or fails where the reference fails. |
| CoefControllers.CoefController.RunPass | libdatarec/3rd_lib_src/libjpg/jcmainct.c:112-158 | A pass of any mode, over any of the components and any number of calls, hands an initial part of one and the same scan to the Huffman encoder, and the whole scan when all rows are done: single-pass and multi-pass coding see the same MCUs. All rows are done after one call for each row and one for each suspension; enough calls suffice if room is made before each. A failure is a failure of the scan. |
| Pictures.SentWithin | libdatarec/3rd_lib_src/libjpg/jccoefct.c:154-217 | The position of the counters determines an initial part of the scan, the whole scan at the end. |
| PictureScans.RowsFit | libdatarec/3rd_lib_src/libjpg/jcmaster.c:372-378 | The MCUs of an image have the blocks that MCU_membership announces. |
| PictureScans.BlockInScan | libdatarec/3rd_lib_src/libjpg/jccoefct.c:167-200 | Every block that the forward DCT computes stands in the scan at its raster position and its place in the MCU. |
| ImageLayouts.ConfigExists | libdatarec/3rd_lib_src/libjpg/jcmaster.c:345-378 | A scan has a configuration with that MCU_membership if and only if it is one of at most 4 of at most 10 components, and the sampling factors of an interleaved scan make MCUs of at most 10 blocks. |
| ImageLayouts.MembershipAt | libdatarec/3rd_lib_src/libjpg/jcmaster.c:374-378 | MCU_membership names, for every block of an MCU, the component whose blocks stand there. |
| ImageLayouts.InterleavedLayout | libdatarec/3rd_lib_src/libjpg/jccoefct.c:154-217 | An interleaved scan has one MCU for each group of samples, each with the sum of h * v blocks. Block (y, x) of a component stands behind those of the earlier components, row by row. Inside the component it is the DCT of the samples there; otherwise all its AC coefficients are 0 and its DC value is that of the block before it, which belongs to the same component. |
| ImageLayouts.InterleavedCoverage | libdatarec/3rd_lib_src/libjpg/jccoefct.c:154-217 | Nothing is left out, in the coordinates of the component: every block of every component of an interleaved scan stands in the MCU and at the place that its sampling factors give, and is coded with the tables of that component and predicted from the block of that component before it. |
| ImageLayouts.SingleCoverage | libdatarec/3rd_lib_src/libjpg/jcmaster.c:320-344 | So it is in the scan of a single component, whose MCUs are its blocks in raster order. |
| PictureScans.ImageDecodes | libdatarec/3rd_lib_src/libjpg/jchuff.c:475-552 | From the bytes of the scan of an image the decoder recovers all its MCUs. |
| ImageCompression.CompressImage | libdatarec/3rd_lib_src/libjpg/jcmaster.c:400-512 | A pass from its start to its end, in any mode: if it completes, the destination holds the bytes of the scan of the image for the tables sent, and they decode to its MCUs; with acceptable tables, enough calls and room it completes if and only if the scan can be written. |
| ImageCompression.SameBytes | libdatarec/3rd_lib_src/libjpg/jccoefct.c:154-395 | Single-pass and multi-pass runs over the same scan with the same tables commit the same bytes, in whatever buffers and however often the destination suspended. |
| ImageCompression.ComponentsPresent | libdatarec/3rd_lib_src/libjpg/jcmaster.c:340-378 | In the scan of an image every component has a block in each MCU, so that the statistics pass finds symbols for every table in use. |
| Rings.ListAddBetween | libdatarec/include/list.h:108-120 | next and prev stay inverse all around the ring, which has the new node between its neighbours. |
| Rings.ListAdd | libdatarec/include/list.h:141-144 | Insertion behind any node. |
| Rings.ListAddTail | libdatarec/include/list.h:166-169 | Insertion at the end. |
| Rings.ListDelBetween | libdatarec/include/list.h:186-192 | The ring without the node. |
| Rings.ListDel | libdatarec/include/list.h:210-219 | The same, the links of the node poisoned. |
| Rings.ListDelInit | libdatarec/include/list.h:225-229 | The same, the node a ring of its own; also when it was alone. |
| Rings.ListMove | libdatarec/include/list.h:236-240 | The node leaves its ring and stands behind the head, in another ring or its own. |
| Rings.ListMoveTail | libdatarec/include/list.h:247-252 | The node leaves its ring and stands at the end of the list. |
| Rings.ListEmpty | libdatarec/include/list.h:262-265 | Empty exactly when the head is alone. |
| Rings.ListSpliceBetween | libdatarec/include/list.h:285-297 | All nodes of the list stand, in order, behind the given node. |
| Rings.ListSplice | libdatarec/include/list.h:304-308 | The same, nothing for an empty list. |
| Rings.ListSpliceInit | libdatarec/include/list.h:317-324 | The same, the emptied list a ring of its own. |
| Rings.ListAddSorted | libdatarec/include/list.h:483-502 | The entries are those of the sorted insertion, for any comparison function and any list. |
| Rings.ListAddSortedUniq | libdatarec/include/list.h:511-536 | Refused exactly when the search meets an equal entry; else inserted where the search stopped. |
| SortedInsertion.SortedKept | libdatarec/include/list.h:483-502 | Where the comparison orders the elements concerned, a sorted list stays sorted and gains exactly the new element. |
| SortedInsertion.SplitPoint | libdatarec/include/list.h:493-501 | Stability: the new element stands behind exactly those that do not come after it. |
| SortedInsertion.RefusedIffPresent | libdatarec/include/list.h:520-535 | Where the comparison is a proper three-way one on the elements concerned, the new element is refused if and only if an equal one is present anywhere in the sorted list. |
| SortedInsertion.UniqueKept | libdatarec/include/list.h:511-536 | A list without equal elements stays strictly sorted. |
| SortedInsertion.FileCheckThreeWay | libdatarec/testdisk/src/filegen.c:69-100 | file_check_cmp is a consistent three-way order: by offset, then bytes, longer signatures before their prefixes. |
| SortedInsertion.FileCheckOrder | libdatarec/testdisk/src/filegen.c:69-100 | The direction of that order: empty checks first, then smaller offsets, then smaller bytes, and of two checks that begin alike the longer one. |
| SortedInsertion.SignatureOrdered | libdatarec/testdisk/src/file_sig.c:80-106 | signature_cmp puts signatures in the same order but never reports equality. |
| SearchSpaces.Cursor.GetNextHeader | libdatarec/include/pnext.h:37-48 | To the start of the next space; stays at the head. |
| SearchSpaces.Cursor.GetNextSector | libdatarec/include/pnext.h:61-89 | To the next block of the range, or the next space, in 64-bit arithmetic. |
| SearchSpaces.Cursor.GetPrevHeader | libdatarec/include/pnext.h:98-103 | To the last block of the space before; stays at the head. |
| SearchSpaces.Cursor.GetPrevSector | libdatarec/include/pnext.h:112-122 | To the previous block of the range, or the space before. |
| SearchSpaces.WalkForward | libdatarec/include/pnext.h:61-89 | From each block of the search space get_next_sector leads to the next one in list order, from the last one to the head. |
| SearchSpaces.WalkBack | libdatarec/include/pnext.h:98-122 | get_prev_sector leads from each block to the one before, from the first one to the head. |
| SearchSpaces.PrevUndoesNext | libdatarec/include/pnext.h:61-122 | Between blocks, one undoes the other. |
| SearchSpaces.BlocksAscend | libdatarec/include/pnext.h:61-89 | The blocks of the walk do not overlap within a range and ranges come in list order. |
| SearchSpaces.ByteVisited | libdatarec/include/pnext.h:61-89 | Every byte of every range lies in a block of the walk. |
| SearchSpaces.VisitAll | libdatarec/include/pnext.h:37-89 | A run of the cursor from the first space to the head visits every block once, in list order. |
| SearchSpaces.FileAddData | libdatarec/include/psearch.h:28-52 | The ring afterwards and all its entries, in each of the five cases; the range returned starts with the content added. |
| SearchSpaces.AddDataAscending | libdatarec/include/psearch.h:28-52 | Ranges stay nonempty, disjoint and sorted. |
| SearchSpaces.AddDataRetags | libdatarec/include/psearch.h:28-52 | The same bytes are covered, and exactly those from offset to the end of its range have the new content. |
| SearchSpaces.SplitKeepsWalk | libdatarec/include/psearch.h:42-51 | A split at a block boundary changes nothing about the blocks visited and their order. |
| SearchSpaces.SplitKeepsSpaces | libdatarec/include/psearch.h:42-51 | Both parts are again ranges of whole blocks. |
| SearchSpaces.OffsetsAreBlocks | libdatarec/include/pnext.h:61-89 | The offsets of SplitKeepsWalk are those of the walk. |
| SearchSpaces.SpaceRangeEqual | libdatarec/testdisk/src/phcli.c:52-61 | spacerange_cmp reports equality exactly when the starts are equal and the ends agree in their low 32 bits. |
| SearchSpaces.SpaceRangeFaults | libdatarec/testdisk/src/phcli.c:52-61 | So, taken over all ranges, it can refuse one that differs from the one present, and three ranges can form a circle. |
| SearchSpaces.SpaceRangeNear | libdatarec/testdisk/src/phcli.c:52-61 | It is negative if and only if the start is smaller, or the starts are equal and the difference of the ends has bit 31 set; for ends less than 2^31 apart that is the order of the ends. |
| SearchSpaces.SpaceRangeThreeWay | libdatarec/testdisk/src/phcli.c:52-61 | Among any ranges of which those with equal starts end less than 2^31 apart it is a proper three-way comparison. |
| SearchSpaces.GiveNumbers | libdatarec/testdisk/src/phcli.c:138-246 | The kind of number that counts and the entries after any group and inode numbers on the command line, in order, are those of the reference. |
| SearchSpaces.OptionsKept | libdatarec/testdisk/src/phcli.c:210-246 | The first number decides: the entries are those of inserting the numbers of its kind; ranges that were there before stay as they are, and no number counts. |
| SearchSpaces.NumbersKept | libdatarec/testdisk/src/phcli.c:218-246 | Inserting numbers in any order makes a strictly sorted list that contains the range of every number, and nothing else. |
| SearchSpaces.SpaceOfNumbers | libdatarec/testdisk/src/phcli.c:138-246 | So the search space given by numbers is strictly sorted and contains exactly the numbers of the kind of the first one, and that kind is the mode. |
| AlignedIO.SpanBounds | libdatarec/include/alignio.h:41-45 | The rounded request covers the bytes asked for with whole sectors and less than one sector to spare. |
| AlignedIO.DirectAligned | libdatarec/include/alignio.h:46-79 | A request that is passed on directly consists of whole sectors. |
| AlignedIO.CountNewEnough | libdatarec/include/alignio.h:42-45 | The assertion count_new >= count holds exactly when the rounded size fits 32 bits. |
| AlignedIO.SmallRequests | libdatarec/include/alignio.h:38-66 | A request for at least one byte needs neither more than 32 bits nor a buffer that cannot grow if its sectors take at most 2^31 bytes: the contracts below cover it. |
| AlignedIO.GrowthStops | libdatarec/include/alignio.h:60-66 | The doubling of the buffer size in 32-bit arithmetic reaches a size if and only if that is at most 2^31. |
| AlignedIO.Disk.NeedRbuffer | libdatarec/include/alignio.h:53-69 | The read buffer is kept if it is large enough, else replaced by one that is. |
| AlignedIO.Disk.NeedWbuffer | libdatarec/include/alignio.h:107-123 | The same for the write buffer. |
| AlignedIO.Disk.AlignPread | libdatarec/include/alignio.h:38-80 | Exactly one raw read, of the whole sectors touched; the bytes delivered are those of the device at the offset given plus that of the disk, all of them after a full raw read; the rest of the caller's buffer and the device are untouched. |
| AlignedIO.Disk.AlignPwrite | libdatarec/include/alignio.h:95-139 | Exactly one raw read, unless the request is whole sectors already, and one raw write, of the whole sectors touched; the exact content of the device afterwards, at the offset given plus that of the disk, for every outcome of the raw calls. |
| AlignedIO.ExactWrite | libdatarec/include/alignio.h:126-135 | Exactly the bytes asked for change if and only if the sectors buffered before the change agree with the device elsewhere. |
| AlignedIO.FullPreRead | libdatarec/include/alignio.h:126-131 | They do after a complete pre-read. |
| AlignedIO.FailedPreRead | libdatarec/include/alignio.h:126-132 | After a failed one, which is replaced by zeros and written anyway, they do if and only if the neighbouring bytes are zero. |
| AlignedIO.PreReadSuffices | libdatarec/include/alignio.h:126-135 | After a pre-read of any length the sectors agree, whatever the buffer held, if and only if it was complete, or the data ends with its last sector and the pre-read reaches the data. |
| AlignedIO.ZeroFilledPreRead | libdatarec/testdisk/src/hdaccess.c:1265-1288 | With a raw read that fills up with zeros they agree if and only if all neighbours beyond the bytes read are zero, after an error as after a partial read. |
| AlignedIO.AlwaysExact | libdatarec/include/alignio.h:95-139 | Before the call: the bytes asked for and no others change for every outcome of the pre-read if and only if offset and count are multiples of the sector size. |
| AlignedIO.ShortReadOverstated | libdatarec/include/alignio.h:72-76 | The count returned exceeds the bytes delivered if and only if the raw read stopped short of the request and the request does not start at a sector boundary. |
| AlignedIO.CountHonest | libdatarec/include/alignio.h:72-76 | Before the call: no result that the raw read can have makes the count exceed the bytes delivered if and only if the request starts at a sector boundary or its sectors lie behind the end of the device. |
| AlignedIO.ShortReadExample | libdatarec/include/alignio.h:38-80 | An input of align_pread for which that happens: ten bytes at offset 100 of an image file of 50 bytes. |
| AlignedIO.WriteThenRead | libdatarec/include/alignio.h:38-139 | Complete write, then read: the data comes back, and the device is the byte array with the data written. |

## Left out

- EntropyEncoder.HuffEntropyEncoder.StartPass: table numbers outside 0..3 are excluded by the configuration; MakeDerivedTable has the error.
- EntropyEncoder.CompressScan: a destination either always takes a full buffer or never does; one that changes its mind is not modelled. ERREXIT is an outcome after which the encoder is not used any more.
- OptimalTable.GenOptimalTable: requires at least one and at most 254 real symbols in use, which CountsReady shows for every scan. Where the source would read in front of its array the model has the result NoCode and ends there.
- BitPacker.Destination.EmptyOutputBuffer: the error of a file that cannot be written is not represented; like every ERREXIT it would end the compression.
- ShortCodes.TableOptimal: says nothing about tables whose lengths had to be limited; the procedure of section K.2 is not claimed to be optimal then.
- OptimizedCoding.OptimizeAndEncode: every component of the configuration has a block in the MCU, as in the scan of any image (ComponentsPresent); the counters are unbounded, in the source they have the width of a long.
- ScanDecoder.ScanRoundTrip: the decoder is the bit-by-bit one; lookahead tables, recovery from damaged data and decoder-side suspension are not part of this model.
- CoefControllers.CoefController.CompressOutput: the MCU buffer receives copies of the blocks of the virtual arrays, not pointers to them.
- CoefControllers.CoefController.RunPass: the statistics pass is not run from the controller; the forward DCT is a function of the sample position and the virtual arrays are plain two-dimensional arrays; paging by the memory manager is not modelled.
- SortedInsertion.FileCheckThreeWay: offsets and lengths are unbounded, the source keeps them far below 2^31; of memcmp only the sign counts.
- SearchSpaces.SpaceOfNumbers: the later conversion of the numbers to byte ranges (ext2_fix_group, ext2_fix_inode) and the parsing of the command line are not part of this model.
- SearchSpaces.FileAddData: allocation never fails; file_stat is an opaque identifier.
- SearchSpaces.WalkForward: ranges consist of whole blocks and end below the largest 64-bit offset, where a step would wrap around.
- AlignedIO.Disk.AlignPread: requests that do not fit (see CountNewEnough and GrowthStops) are excluded, also for AlignPwrite; the access mode and the alignment of the caller's buffer are one boolean, and that buffer is distinct from the disk's own buffers.
- AlignedIO.Device: a device does not grow; an error can come after part of the data has been written.
- Progressive and arithmetic coding, marker writing, colour conversion, downsampling and the DCT itself.
- The decompressor apart from the Huffman decoding that the round trip needs.
- The header checkers of the carver, file_found, ind_block and file_recovery_cpy, the iteration macros and td_list_empty_careful.
- The server, its request handling and logging, and the command line tools: plumbing around the parts modelled.
