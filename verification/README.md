# Proofs about the JPEG codec

A Dafny model of the entropy-coding pipeline of the IJG JPEG library under `jpeg/`,
which implements ITU-T T.81 (ISO/IEC 10918-1), and of the state machines that feed it.
`dafny verify dfyconfig.toml` checks everything.

The C routines that change state are classes and methods with the same loops, branches
and limits. Each is proved against a specification function, and the laws are lemmas
about those functions or postconditions of whole passes. Where coder and decoder could be
wrong in the same way, a layout module says what is sent in terms of the image alone:
`ScanLayout`, `AcLayout`, `DcLayout` and `HeaderLayout`. What is proved, by theme:

* **Huffman tables.** The merge over chained trees finds code lengths no prefix code can
  beat, with pseudo-symbol 256 among the longest, and none over 32 bits for fewer than
  9,227,464 counts; length limiting keeps a complete tree, ends at 16 bits and takes every
  prefix from the longest length it can; both
  derived-table builders accept exactly the legal tables; the lookahead path, the bit-serial
  search and the encoder's tables agree on every bit string.
  Modules: `HuffmanMerge`, `MergeForest`, `OptimalTable`, `LimitLengths`, `TableGenerator`,
  `HuffTable`, `DerivedTables`.
* **Sequential scans.** Bytes written by the encoder, with stuffing, padding, restart
  markers and DC prediction, decode to the same coefficients and never need fill bits.
  Suspension does not show: through any series of drained buffers and refusals the pieces
  written join up to the bytes of an encoder that never suspends, and data that arrives in
  any pieces decodes to the same MCUs. Statistics pass, optimal tables and output pass
  together fail only for a coefficient out of range or nine million symbols of a kind, never
  for a missing code. Modules: `Bits`, `Registers`, `Stuffing`, `BlockCoding`, `ScanCoding`,
  `BitWriter`, `HuffEncoder`, `EncodingRuns`, `HuffGather`, `OptimizedTables`, `BitReader`,
  `HuffDecoder`, `ScanRoundTrip`, `OptimizedScan`, `ScanLayout`.
* **Progressive scans.** `jdphuff.c` is not part of this model; the
  decoder is the procedure of section G.2 of T.81. First and refinement scans of AC
  bands and of DC values are lossless at their precision, across ZRL folding, EOB runs over
  many blocks, buffered correction bits and restarts; the buffer and run counters stay in
  their bounds; with optimal tables no symbol is without a code. For every accepted script,
  decoding its scans one after the other brings every coefficient of the image down to the
  bit the script has reached; a script that ends at bit 0 gives the image back. Modules:
  `ProgressiveTokens`, `ProgressiveBlock`, `ProgressiveBlockRoundTrip`, `ProgressiveScan`,
  `ProgressiveRoundTrip`, `PhuffOutput`, `PhuffEncoder`, `AcScanPasses`, `OptimizedAcScan`,
  `ProgressiveDc`, `DcScanPasses`, `OptimizedDcScan`, `ProgressiveImage`, `AcLayout`,
  `DcLayout`.
* **Scripts and passes.** Script validation accepts exactly the legal scripts; accepted
  progressive scripts send every bit once and in order; the standard scripts are accepted
  and complete; the pass machine writes each scan once, and gathers statistics for it exactly
  if it needs a table. Modules: `ScanScript`,
  `SimpleProgression`, `CompressPasses`.
* **Controllers.** Coefficient buffering sends the same MCUs in all modes, in raster order,
  every block in its place and every dummy with the DC value of its neighbour; both sliding-window buffers deliver each row group once, in order, with its
  neighbours; input rows are acknowledged exactly once across suspensions. Modules:
  `CoefController`, `MainController`, `PrepController`, `CompressMain`, `Rounding`, `Geometry`.
* **Header segments.** Whatever the marker writer emits, the marker reader gets back, with
  any cut of the file into pieces. Modules: `MarkerSegments`, `HeaderRoundTrip`,
  `HeaderLayout`, `MarkerReader`, `MarkerWriter`.

One promise of the source does not hold as stated. The context rows below the last row
group of the next-to-last iMCU row are taken before `set_bottom_pointers` runs. When the
last iMCU row has fewer rows than a row group, they show workspace rows that are not part
of the image, although the comment in `jpeg/jdmainct.c` has the last sample row
duplicated. `MainController.UnclampedContext` is a 17-row component for which this happens, and
`MainController.ContextIsClamped` says exactly when all context is clamped: there is one
iMCU row, or the last one holds at least a row group. The first context row is always
right.

Model conventions. A sample row, a coefficient or a DC value is an integer; the 16- and 32-bit
registers of the bit packer and bit reader wrap explicitly. ERREXIT is a failure result.
During one call of the encoder a data destination either empties its buffer whenever it is
full or refuses without moving its pointers; between calls the application drains the buffer
and may change that. A data source is the bytes delivered so far, a beginning of all that it
will deliver. Sizes shared by all modules are in `JpegLimits`. `jpeg_natural_order` is a
parameter: a permutation of 0..63 that starts with 0, with 16 extra entries of 63.

## Model

| member | source | states |
|---|---|---|
| `HuffmanMerge.MergeStep` | jpeg/jchuff.c:722-776 | any code lengths for the current weights give lengths for the weights after merging the two least, cheaper by exactly what the merge pays |
| `HuffmanMerge.DominatesMerge` | jpeg/jchuff.c:728-776 | the invariant behind optimality: what has been paid plus the best lengths for what is left never exceeds the best lengths for the start |
| `HuffmanMerge.KraftInequality` | jpeg/jchuff.c:728-776 | the lengths of every prefix code satisfy the Kraft inequality, so optimality is against all prefix codes |
| `MergeForest.ForestMerge` | jpeg/jchuff.c:753-775 | merging keeps every counted symbol in one tree and each root's weight the sum of its tree |
| `MergeForest.LinkedMerge` | jpeg/jchuff.c:757-775 | joining the others[] chains keeps one cycle-free chain per tree, holding exactly its symbols |
| `MergeForest.TreesFullMerge` | jpeg/jchuff.c:757-775 | after deepening both chains the Kraft sum of every tree is still exactly one |
| `MergeForest.CostMerge` | jpeg/jchuff.c:757-775 | a merge raises the total coded size by the sum of the two weights |
| `MergeForest.PseudoDeepestMerge` | jpeg/jchuff.c:722-776 | with ties broken towards larger symbols, pseudo-symbol 256 stays among the deepest of its tree |
| `MergeForest.HeavyMerge` | jpeg/jchuff.c:757-775 | the weight of a tree grows at least like the Fibonacci numbers with its height: the invariant behind the bound on code lengths |
| `OptimalTable.FindSmallest` | jpeg/jchuff.c:731-749 | the search returns the least nonzero count, the largest symbol among equals, or -1 exactly when none is left |
| `OptimalTable.BumpChain` | jpeg/jchuff.c:757-763 | walking a chain deepens exactly the symbols of its tree and ends on the chain's last symbol |
| `OptimalTable.MergeTrees` | jpeg/jchuff.c:753-775 | one round of the loop: new counts, lengths and links as the abstract merge of two trees has them |
| `OptimalTable.CodeLengths` | jpeg/jchuff.c:728-776 | the merge loop ends with lengths that satisfy Kraft with equality, are optimal, give pseudo-symbol 256 the greatest length, are zero for uncounted symbols, and are bounded by the total count as Fibonacci numbers grow |
| `OptimalTable.BeatsEveryPrefixCode` | jpeg/jchuff.c:728-776 | the sum of count times length is at most that of any prefix code on the counted symbols and symbol 256 |
| `LimitLengths.CountLengths` | jpeg/jchuff.c:779-786 | bits[k] is the number of symbols of length k, or the overflow error exactly when some length exceeds 32 |
| `LimitLengths.EvenTop` | jpeg/jchuff.c:801-815 | in a complete tree the longest length occurs an even number of times, so removing pairs works out |
| `LimitLengths.FindsPrefix` | jpeg/jchuff.c:803-806 | for at most 255 symbols the search for a shorter nonempty length always succeeds |
| `LimitLengths.AdjustKeeps` | jpeg/jchuff.c:808-813 | moving a pair keeps the Kraft sum equal to one and the number of symbols |
| `LimitLengths.LimitTo16` | jpeg/jchuff.c:801-815 | the loops end with a complete tree of the same symbols of at most 16 bits, reached from the counts found by section K.2 steps alone: each takes a pair of the longest codes, and its second prefix from the longest length in use below the first |
| `LimitLengths.AdjustOnce` | jpeg/jchuff.c:803-811 | one step: the prefix comes from the longest length in use below i - 1, and every count changes as section K.2 says and no other does |
| `LimitLengths.LimitedOnce` | jpeg/jchuff.c:801-815 | the counts that such steps end with are determined by the counts they start from |
| `LimitLengths.LongestPrefixGivesWay` | jpeg/jchuff.c:803-811 | one code of each length up to 16 and two of length 17: length 15 gives way, every shorter one is left alone |
| `LimitLengths.DropPseudo` | jpeg/jchuff.c:817-820 | one slot of the longest length goes away; the rest leaves every all-ones code free |
| `LimitLengths.SortSymbols` | jpeg/jchuff.c:822-834 | huffval lists exactly the real symbols with a code, ordered by length and then by value |
| `TableGenerator.GenOptimalTable` | jpeg/jchuff.c:705-838 | the whole generator: optimal unlimited lengths; overflow exactly when one exceeds 32, which takes at least 9,227,464 counts; otherwise a legal table with a code for exactly the counted symbols, whose counts come from the unlimited lengths by section K.2 steps, less one of the largest, and whose symbols are in the order of those lengths |
| `HuffTable.DecodeWord` | jpeg/jdhuff.c:397-433 | bit-serial decoding of a code word followed by anything gives its symbol and its length |
| `HuffTable.CanonicalOrder` | jpeg/jchuff.c:221-239 | each code is the one before it plus one, with zeros appended up to its own length |
| `HuffTable.CanonicalStart` | jpeg/jchuff.c:221-239 | the first code is all zeros |
| `HuffTable.WordsPrefixFree` | jpeg/jchuff.c:221-243 | codes of an accepted table are prefix-free and none is all ones |
| `HuffTable.DecodeSkip` | jpeg/jdhuff.c:397-433 | the search gives the same result from any starting length that is too short for the bits |
| `DerivedTables.MakeSizes` | jpeg/jchuff.c:202-219 | the length of every table position, or an error exactly when there are more than 256 |
| `DerivedTables.MakeCodes` | jpeg/jchuff.c:221-243 | accepted exactly when every length leaves its all-ones code free; then the canonical codes |
| `DerivedTables.MakeCDerivedTbl` | jpeg/jchuff.c:179-264 | accepts exactly legal counts with distinct symbols in range; then code and size of each listed symbol and none for the others |
| `DerivedTables.MakeSearchTables` | jpeg/jdhuff.c:213-232 | maxcode and valoffset locate the symbol of every code by length, with a sentinel at 17 |
| `DerivedTables.MakeLookahead` | jpeg/jdhuff.c:234-261 | each of the 256 lookahead entries is what bit-serial decoding of those eight bits gives, or 0 when the code is longer |
| `DerivedTables.MakeDDerivedTbl` | jpeg/jdhuff.c:149-280 | accepts exactly legal counts and, for DC, symbols up to 15; then the tables above |
| `DerivedTables.DecodeCodeBits` | jpeg/jchuff.c:245-263 | the decoder reads any symbol the encoder has a code for, with the same number of bits |
| `Registers.ShiftIn` | jpeg/jchuff.c:302-323 | the 24-bit buffer after adding bits holds the old bits followed by the new |
| `Registers.ShiftOut` | jpeg/jchuff.c:325-334 | the byte taken out is the first eight bits held, and the others remain |
| `Stuffing.OctetsAppend` | jpeg/jchuff.c:325-334 | the complete bytes of a growing bit string never change, so bytes can go out early |
| `Stuffing.Unstuff` | jpeg/jdhuff.c:325-370 | reading stuffed bytes up to a marker gives the bytes, the marker and what follows it |
| `Stuffing.ReadSegment` | jpeg/jdhuff.c:291-395 | reading a flushed segment gives its bits and at most seven more, all ones |
| `Stuffing.StuffedZeros` | jpeg/jchuff.c:302-336 | stuffing adds exactly one byte for each FF, a zero right behind it |
| `BitWriter.Writer.EmitBits` | jpeg/jchuff.c:302-337 | appends the low bits of the code to the segment, with FF/00 stuffing; size 0 is the missing-code error; suspends only if the bytes do not fit |
| `BitWriter.Writer.FlushBits` | jpeg/jchuff.c:340-347 | the segment becomes its bytes with the last one filled with ones |
| `BlockCoding.ExtendExtra` | jpeg/jdhuff.c:443-461 | the extra bits of a value extend back to the value |
| `BlockCoding.ExtraBitsOf` | jpeg/jchuff.c:362-392 | the extra bits are as many as the magnitude needs, and are the value itself or the complement of its magnitude |
| `BlockCoding.DifferenceBits` | jpeg/jchuff.c:362-392 | a DC difference costs the code of its category and then its bits, by sign |
| `BlockCoding.DifferenceRead` | jpeg/jdhuff.c:548-561 | those bits are read as that difference, of that sign |
| `BlockCoding.CoefficientAfterRun` | jpeg/jchuff.c:398-437 | after r zeros a coefficient costs r / 16 ZRL codes, the code of 16 * (r % 16) + category and its bits |
| `BlockCoding.ZerosToEnd` | jpeg/jchuff.c:439-444 | zeros up to the end of the block cost one EOB code |
| `BlockCoding.NoSuchCode` | jpeg/jdhuff.c:412-437 | bits that no code word begins with count as symbol 0 and use up 17 bits |
| `BlockCoding.OverlongRun` | jpeg/jutils.c:41-67 | a run past the end of the block is stored in its last coefficient |
| `BlockCoding.DcRoundTrip` | jpeg/jchuff.c:363-397 | the bits sent for a DC difference decode to it |
| `BlockCoding.AcRoundTrip` | jpeg/jchuff.c:399-446 | the bits of the AC coefficients, with ZRL and EOB, decode to the same coefficients and position |
| `HuffEncoder.EncodeOneBlock` | jpeg/jchuff.c:352-446 | sends exactly the symbols and bits of section F.1.2, beginning with block[0] - last as the code of its category and the difference or its complement; or fails exactly because a symbol is out of range or has no code |
| `HuffEncoder.EmitRestart` | jpeg/jchuff.c:450-470 | flushes, writes FF and RST0 plus the number, and starts an empty segment |
| `HuffEncoder.HuffEncoder.EncodeMcu` | jpeg/jchuff.c:475-525 | one MCU advances the scan by one step of its specification; a failed or suspended call changes nothing at all, and suspension happens exactly when the bytes do not fit |
| `HuffEncoder.HuffEncoder.FinishPass` | jpeg/jchuff.c:532-553 | the final flush completes the bytes of the scan; it is an error exactly if they do not fit |
| `HuffEncoder.HuffEncoder.NewBuffer` | jpeg/jdatadst.c:66-78 | a drained buffer between calls, with any policy, leaves the scan where it is |
| `EncodingRuns.EncodeSome` | jpeg/jccoefct.c:142-218 | MCUs are coded one after the other until one refuses, and then exactly because its bytes do not fit |
| `EncodingRuns.FillBuffer` | jpeg/jchuff.c:475-525 | one buffer receives exactly the next bytes of the scan, never more than it holds, and at least one MCU if there is room for any |
| `EncodingRuns.EncodeScanInPieces` | jpeg/jchuff.c:475-553 | under any series of buffers and refusals what is stored joins up to what an encoder that never suspends sends for the MCUs done; to the whole scan when the pass ends; and it ends once enough room was offered |
| `EncodingRuns.EncodeScan` | jpeg/jchuff.c:475-553 | through a destination that never refuses encoding succeeds exactly when every MCU is codable, and gives the segments of the scan, each from its blocks alone, with RST0 to RST7 in turn between them |
| `ScanLayout.RestartLayout` | jpeg/jchuff.c:451-553 | the bytes of a scan are cut every restart_interval MCUs by RST0 to RST7 in turn, and in each segment a DC value is coded against the latest one of its component there, or 0 |
| `ScanLayout.PlainLayout` | jpeg/jchuff.c:476-553 | without restarts the scan is one such segment |
| `HuffGather.HtestOneBlock` | jpeg/jchuff.c:571-635 | counts exactly the symbols that encoding the block would send, the DC one being the category of block[0] - last |
| `HuffGather.HuffGatherer.EncodeMcuGather` | jpeg/jchuff.c:644-673 | restarts and predictions go as in the output pass, so the counts are those of the symbols sent |
| `OptimizedTables.TableAccepted` | jpeg/jchuff.c:705-838 | a generated table for symbols in range is accepted by both derived-table builders |
| `OptimizedTables.FinishPassGather` | jpeg/jchuff.c:845-883 | makes one table for every slot in use, from its counts, and leaves the others; overflow only for at least 9,227,464 counts in a slot |
| `OptimizedTables.StatisticsSuffice` | jpeg/jchuff.c:571-673 | tables made from counters that tally a list of symbols have a code for each of them |
| `OptimizedTables.ScanNeverFails` | jpeg/jchuff.c:475-525 | if all symbols of a scan have codes, no MCU of the output pass meets the missing-code error |
| `OptimizedScan.GatherScan` | jpeg/jchuff.c:644-673 | the statistics pass over a scan fails exactly for a coefficient out of range, and otherwise its counters tally every symbol of the scan |
| `OptimizedScan.CountsUsable` | jpeg/jchuff.c:644-673 | these counters have at least one and at most 254 symbols in every slot in use |
| `OptimizedScan.StartPass` | jpeg/jchuff.c:149-156 | derives the tables of all components, exactly when each is legal for its class |
| `OptimizedScan.OptimalTables` | jpeg/jchuff.c:571-883 | statistics, optimal tables and derived tables: fails exactly for a coefficient out of range, or for at least 9,227,464 symbols in a slot; then the output pass over the same MCUs never misses a code and a decoder accepts the tables |
| `OptimizedScan.StartDecoder` | jpeg/jdhuff.c:85-140 | the decoder's tables, exactly when each is legal for its class |
| `OptimizedScan.ThereAndBack` | jpeg/jchuff.c:475-883 | all passes of an optimised scan and decoding with the tables that were sent: below that number of symbols, success exactly for coefficients in range, and every coefficient back without fill bits |
| `BitReader.ReadUnit` | jpeg/jdhuff.c:325-364 | fetches the next data byte or marker, undoing stuffing and skipping pad bytes |
| `BitReader.BitReader.Fill` | jpeg/jdhuff.c:291-390 | leaves enough bits of the segment in the buffer, zeros only past its end, and records exactly then that data was insufficient; refuses only if the end has not arrived |
| `BitReader.BitReader.GetBits` | jpeg/jdhuff.h:144-151 | takes the next bits of the stream |
| `BitReader.BitReader.HuffDecode` | jpeg/jdhuff.h:176-196 | the fast path and its fallback give the symbol that bit-serial decoding of the stream gives |
| `BitReader.BitReader.SlowDecode` | jpeg/jdhuff.c:397-433 | from any admissible starting length the loop ends by length 17 with that symbol, or 0 past the longest code |
| `BitReader.SearchEnds` | jpeg/jdhuff.c:411-432 | where maxcode stops the search, the table entry is the symbol of the bits |
| `BitReader.DecodeLonger` | jpeg/jdhuff.h:176-196 | decoding a short window and decoding a longer one agree |
| `HuffDecoder.DecodeAc` | jpeg/jdhuff.c:556-598 | fills the block with what decoding the stream gives, or only skips it |
| `HuffDecoder.HuffDecoder.Supply` | jpeg/jdatasrc.c:73-86 | data that arrives between calls changes nothing about what is still to come |
| `HuffDecoder.HuffDecoder.ProcessRestart` | jpeg/jdhuff.c:467-507 | finds the next marker; goes on exactly if it is the restart that is due, with predictions and counters reset; if it has not arrived, it is still ahead |
| `HuffDecoder.HuffDecoder.DecodeMcu` | jpeg/jdhuff.c:516-627 | decodes the next MCU of the segment, whose bits may not all have arrived; suspends only for data that has not arrived, and then loses nothing; uses fill bits exactly beyond the end of the segment, and none before the marker that ends it has arrived |
| `HuffDecoder.DecodeOneBlock` | jpeg/jdhuff.c:543-613 | the new prediction is the old one plus the difference read, it becomes the DC coefficient, and AC decoding leaves that alone |
| `ScanRoundTrip.BlockRoundTrip` | jpeg/jdhuff.c:530-598 | a coded block decodes to itself and its DC becomes the prediction |
| `ScanRoundTrip.McuRoundTrip` | jpeg/jdhuff.c:516-627 | a coded MCU decodes to itself and uses exactly its bits |
| `ScanRoundTrip.DecodeNext` | jpeg/jdhuff.c:516-627 | a decoder in step with the encoder returns the next MCU and stays in step, or, short of data, stays in step before or after the restart that is due |
| `ScanRoundTrip.DecodeScanInPieces` | jpeg/jdhuff.c:467-627 | the encoder's bytes, up to any marker and cut into any pieces, decode to all MCUs in order, with suspended ones tried again, and never need fill bits |
| `ScanRoundTrip.DecodeScan` | jpeg/jdhuff.c:516-627 | the same with all data at hand |
| `PhuffOutput.TokenWriter.EmitSymbol` | jpeg/jcphuff.c:280-290 | counts the symbol or sends its code; the log of tokens grows the same way in both modes |
| `PhuffOutput.TokenWriter.EmitBufferedBits` | jpeg/jcphuff.c:297-309 | sends the buffered bits in order, and nothing when gathering |
| `PhuffOutput.TokenWriter.EmitMarker` | jpeg/jcphuff.c:346-360 | the restart marker closes a segment |
| `PhuffEncoder.PhuffEncoder.EmitEobrun` | jpeg/jcphuff.c:315-339 | sends the pending run as one symbol with its bits and the correction bits; the error for runs over 14 bits cannot occur |
| `PhuffEncoder.PhuffEncoder.PrePass` | jpeg/jcphuff.c:644-658 | the absolute values are Abs(c) >> Al, and EOB is the last newly nonzero one |
| `PhuffEncoder.PhuffEncoder.EncodeMcuAcFirst` | jpeg/jcphuff.c:463-562 | one step of the scan's specification; fails only for a value out of range, a missing code or a full destination |
| `PhuffEncoder.PhuffEncoder.EncodeMcuAcRefine` | jpeg/jcphuff.c:617-738 | the same for refinement; and to the correction bits sent or waiting in the segment it adds, in zigzag order, one for each coefficient with Abs(c) >> Al above 1, which is 1 exactly if that is odd |
| `PhuffEncoder.PhuffEncoder.BufferBit` | jpeg/jcphuff.c:686-694 | the bit put in the buffer is the last one of the magnitude, and nothing else there changes |
| `PhuffEncoder.PhuffEncoder.FinishPass` | jpeg/jcphuff.c:745-759 | the last run and byte complete the bytes of the scan |
| `PhuffEncoder.PhuffEncoder.FinishCounts` | jpeg/jcphuff.c:766-807 | the counters handed to table generation count every symbol of the complete scan |
| `ProgressiveScan.StepBounded` | jpeg/jcphuff.c:693-722 | each block keeps: correction bits only with a pending run, runs below 0x7FFF, at most 937 buffered bits; within a block never more than 1000 |
| `ProgressiveScan.RunBounded` | jpeg/jcphuff.c:541-545 | these bounds hold after any number of blocks |
| `ProgressiveBlock.CorrectedBack` | jpeg/jcphuff.c:686-694 | a known value and its correction bit give the value at the next precision, and the bit is 1 exactly if that doubles the magnitude and adds one |
| `ProgressiveBlock.SkipCorrects` | jpeg/jcphuff.c:686-694 | by Figure G.7 the i-th known coefficient passed takes the i-th bit, a 1 moves it one step away from zero, a 0 leaves it doubled, and nothing else changes |
| `ProgressiveBlock.PointTowardsZero` | jpeg/jcphuff.c:500-519 | the point transform of AC values drops low bits of the magnitude and keeps the sign |
| `ProgressiveBlockRoundTrip.EobRunBits` | jpeg/jcphuff.c:315-339 | the bits of a run decode to its length, leaving the correction bits next |
| `ProgressiveBlockRoundTrip.ZrlWindow` | jpeg/jcphuff.c:669-684 | after a ZRL the decoder has skipped sixteen zeros and applied exactly the buffered correction bits |
| `ProgressiveBlockRoundTrip.BlockDecodes` | jpeg/jcphuff.c:661-722 | what is sent for a block, followed by the rest of its run, decodes under section G.2 to the block |
| `ProgressiveRoundTrip.RunDecodes` | jpeg/jcphuff.c:617-738 | the decoder stays in step with the encoder through every block, run and restart of a scan |
| `ProgressiveRoundTrip.SegmentsBack` | jpeg/jcphuff.c:346-360 | cutting the bytes at restart markers gives the segments, each with at most seven padding bits |
| `ProgressiveRoundTrip.AcScanLossless` | jpeg/jcphuff.c:463-759 | decoding the bytes of any AC scan, first or refinement, recovers every block at the scan's precision; no run is left over and only padding is unread |
| `AcScanPasses.OutputPass` | jpeg/jcphuff.c:463-759 | a whole output pass succeeds exactly when values are in range and every symbol has a code, and writes the scan's bytes, whose segments say of their blocks exactly what `AcLayout.ScanSays` states |
| `AcLayout.BlockSays` | jpeg/jcphuff.c:490-557 | read without the encoder, a block's tokens are its new coefficients with the zeros before each, and its correction bits |
| `AcLayout.FlushSays` | jpeg/jcphuff.c:316-340 | a run of n blocks is sent as the number n, followed by its correction bits |
| `AcLayout.ScanSays` | jpeg/jcphuff.c:464-759 | a segment ends every restart_interval blocks, and says in order the new coefficients with sign and run, the correction bits, and how many of its blocks end early |
| `AcScanPasses.StatisticsPass` | jpeg/jcphuff.c:280-309 | the statistics pass over the same blocks counts the symbols of that very scan |
| `AcScanPasses.CountsSuffice` | jpeg/jcphuff.c:766-807 | a table made from the counts has a code for every symbol the output pass needs |
| `AcScanPasses.KnownIsEarlierScan` | jpeg/jcphuff.c:617-658 | a refinement scan builds on exactly what the scan at one bit less delivered |
| `AcScanPasses.FullPrecision` | jpeg/jcphuff.c:617-738 | after the scan at bit 0 the band holds the coefficients |
| `OptimizedAcScan.AcCountsUsable` | jpeg/jcphuff.c:766-807 | the counters of an AC scan, first or refinement, have at least one and at most 254 symbols |
| `OptimizedAcScan.EncodeAcOptimized` | jpeg/jcphuff.c:463-807 | statistics pass, optimal table, output pass of an AC scan: fails exactly for a coefficient out of range, or for at least 9,227,464 symbols; whatever marker follows, a decoder with the table recovers every block |
| `ProgressiveDc.ShiftStep` | jpeg/jcphuff.c:401-404 | shifting by one more bit halves, rounding down, also for negative DC values |
| `ProgressiveDc.DiffBack` | jpeg/jcphuff.c:406-442 | a DC difference decodes from its symbol and bits |
| `ProgressiveDc.DcRunDecodes` | jpeg/jcphuff.c:376-456 | the decoder follows the encoder through every MCU and restart of a DC scan |
| `ProgressiveDc.DcScanLossless` | jpeg/jcphuff.c:376-456 | decoding the bytes of a DC scan, first or refinement, gives every shifted DC value; all segments are used and only padding is unread |
| `ProgressiveDc.DcSteps` | jpeg/jcphuff.c:570-610 | a refinement builds on the values of the scan before, and at bit 0 they are the DC coefficients |
| `DcScanPasses.DcEncoder.EncodeMcu` | jpeg/jcphuff.c:376-456 | one step of the scan's specification; fails only for a difference out of range, a missing code or a full destination |
| `DcScanPasses.DcEncoder.EncodeDcBlock` | jpeg/jcphuff.c:570-610 | a refinement sends bit Al and leaves the predictions alone; a first scan sends block[0] >> Al less the prediction as category and bits, by sign, and makes it the prediction |
| `DcScanPasses.DcOutputPass` | jpeg/jcphuff.c:376-456 | a whole DC scan succeeds exactly when differences are in range and symbols have codes; its segments hold restart_interval MCUs each, coded from their values alone |
| `DcLayout.DifferenceTokens` | jpeg/jcphuff.c:411-448 | a difference is its category, then the value or the complement of its magnitude |
| `DcLayout.ScanLaidOut` | jpeg/jcphuff.c:377-456 | in each segment a value is predicted from the latest one of its component there, or 0 |
| `DcLayout.ShiftRoundsDown` | jpeg/jcphuff.c:400-409 | the point transform of DC values rounds down |
| `DcScanPasses.DcCountsSuffice` | jpeg/jcphuff.c:766-807 | tables made from the statistics of a DC scan cover all its symbols |
| `OptimizedDcScan.DcCountsUsable` | jpeg/jcphuff.c:766-807 | the counters of a first DC scan have at least one and at most 254 symbols in every slot in use, all legal for DC |
| `OptimizedDcScan.EncodeDcOptimized` | jpeg/jcphuff.c:376-456 | statistics pass, optimal tables, output pass of a first DC scan: fails exactly for a difference out of range, or for at least 9,227,464 symbols in a slot; a decoder with the tables gets every value back |
| `ProgressiveImage.AcScanStep` | jpeg/jcphuff.c:463-759 | decoding one AC scan of an accepted script takes the coefficients of its band to the next precision and leaves all others |
| `ProgressiveImage.DcScanStep` | jpeg/jcphuff.c:376-610 | the same for a DC scan, interleaved or not, whatever its dummy blocks hold |
| `ProgressiveImage.ScansDecode` | jpeg/jcphuff.c:376-759 | after any number of scans of an accepted script every coefficient is known exactly down to the bit the script has reached for it |
| `ProgressiveImage.WholeImage` | jpeg/jcmaster.c:130-261 | an accepted progressive script that reaches bit 0 for every coefficient gives back the whole image |
| `ProgressiveImage.StandardScript` | jpeg/jcparam.c:536-608 | in particular the scripts of `jpeg_simple_progression`, for any number of components |
| `ScanScript.CheckCoefficients` | jpeg/jcmaster.c:206-231 | one component of a progressive scan is accepted exactly if DC came first and every coefficient continues at its last bit; then the table of last bits is updated |
| `ScanScript.ValidateScript` | jpeg/jcmaster.c:130-261 | accepts exactly the legal scripts and tells progressive from sequential |
| `ScanScript.OneBitSteps` | jpeg/jcmaster.c:206-231 | a coefficient is sent first with Ah 0 and then one bit lower each time, with no gap or repeat |
| `ScanScript.RefinementsAddOneBit` | jpeg/jcmaster.c:214-227 | a scan refines a coefficient exactly if it was sent before, from the very bit reached |
| `ScanScript.DcComesFirst` | jpeg/jcmaster.c:211-213 | an AC scan of a component is preceded by a DC scan of it |
| `SimpleProgression.FillDcScans` | jpeg/jcparam.c:508-528 | one interleaved DC scan for up to four components, else one for each, after what was there |
| `SimpleProgression.JpegSimpleProgression` | jpeg/jcparam.c:536-608 | fills exactly the number of scans computed beforehand, with the standard script; for YCbCr these ten scans: Cr before Cb in one band, luma split after coefficient 5 |
| `SimpleProgression.GeneralScans` | jpeg/jcparam.c:592-606 | the other script: DC together up to four components, bands 1..5 and 6..63 of each, then one bit at a time |
| `SimpleProgression.ScriptAccepted` | jpeg/jcparam.c:536-608 | that script is accepted for every number of components and brings every coefficient to bit 0 |
| `CompressPasses.CompMaster.PrepareForPass` | jpeg/jcmaster.c:400-479 | the pass set up for each state: statistics for a scan with Ss != 0 or Ah == 0, straight output for Ss == 0 and Ah != 0 |
| `CompressPasses.CompMaster.FinishPassMaster` | jpeg/jcmaster.c:502-535 | the next state, and the scan advances exactly after an output pass |
| `CompressPasses.CompMaster.FinishCompress` | jpeg/jcapimin.c:147-175 | the loop over the remaining passes stops exactly after the last and leaves the complete sequence of events |
| `CompressPasses.Compress` | jpeg/jcmaster.c:400-535 | for every accepted script, with or without optimization, the events are those expected and so is the number of passes; with optimization the data of a scan follows one statistics pass of its own exactly if Ss != 0 or Ah == 0, and without it there are none |
| `CompressPasses.StatisticsWhereNeeded` | jpeg/jcmaster.c:436-452 | the same for the expected events: between two scans there is a statistics pass for the second exactly if it needs a table |
| `CompressPasses.EachScanOnce` | jpeg/jcmaster.c:400-535 | in these events every scan is output once, in order, right after its own header, and the frame header comes once and before any scan header |
| `CoefController.BuildMcu` | jpeg/jccoefct.c:155-192 | an MCU built while compressing has the image's blocks in their places; a block right of the image has the DC of the block before it, one below that of the last block one row up, and zeros elsewhere |
| `CoefController.LoadStrip` | jpeg/jccoefct.c:254-322 | the strip stored in a first pass has the image's blocks in their places, and dummies with the DC of the block before, or below the image of the last block of their MCU one row up |
| `CoefController.CoefCtl.FetchMcu` | jpeg/jccoefct.c:370-385 | an MCU fetched from full-image buffers is the one built on the fly |
| `CoefController.CoefCtl.SendImcuRow` | jpeg/jccoefct.c:142-218 | MCUs go out one by one in raster order, and a refused one is sent again on the next call, not skipped or repeated |
| `CoefController.RunPass` | jpeg/jccoefct.c:142-395 | in all three buffer modes and under any refusals MCU j sent is that of row j / MCUs_per_row and column j % MCUs_per_row, block by block with its dummies; none is skipped or repeated, and all are sent as soon as the encoder has accepted as many as there are |
| `CoefController.WholeScan` | jpeg/jccoefct.c:142-236 | the MCUs of a scan are in raster order, each with the right block in each place, and as many as MCU rows times columns |
| `Geometry.BlocksFit` | jpeg/jcmaster.c:94-123 | every component's blocks make up as many MCU columns and iMCU rows as the image has |
| `Geometry.McuRowsAddUp` | jpeg/jccoefct.c:81-88 | the MCU rows handed out over all iMCU rows add up to MCU_rows_in_scan, interleaved or not |
| `Geometry.ScanSetupIsValid` | jpeg/jcmaster.c:308-371 | the dimensions computed for a scan meet all that the coefficient controller assumes |
| `Geometry.ChooseDctSize` | jpeg/jdmaster.c:126-142 | the chosen DCT size is the minimum doubled as often as both directions allow, up to 8 |
| `Geometry.RowGroupsAgree` | jpeg/jdmainct.c:277-290 | the number of row groups in the last iMCU row is the same for every component under any scaling |
| `MainController.MakeFunnyPointers` | jpeg/jdmainct.c:194-231 | both lists name the rows of the workspace, the second with its last four groups exchanged, and the first context above the top |
| `MainController.SetWraparoundPointers` | jpeg/jdmainct.c:237-262 | the ends of a list get the rows of the neighbouring iMCU rows |
| `MainController.SetBottomPointers` | jpeg/jdmainct.c:265-299 | the rows below the image are the last one repeated, and the number of real row groups |
| `MainController.Controller.ProcessDataContextMain` | jpeg/jdmainct.c:384-447 | every call, however little the source gives or the caller takes, continues the same sequence of row groups, and makes progress if it can |
| `MainController.RunPass` | jpeg/jdmainct.c:384-447 | under any schedule the row groups seen are 0, 1, 2, ... each once, each row the one of its place in the image, or beyond an edge the row at the edge, but for the late group; and all of them once there were as many productive calls as row groups |
| `MainController.FaithfulUnlessLate` | jpeg/jdmainct.c:384-447 | each row group but one comes with the image rows around it, clamped at top and bottom |
| `MainController.ContextIsClamped` | jpeg/jdmainct.c:265-299 | all context is clamped if and only if there is one iMCU row or the last one fills a row group |
| `MainController.UnclampedContext` | jpeg/jdmainct.c:384-447 | a 17-row component for which the code shows a row that is not in the image |
| `MainController.GroupsCover` | jpeg/jdmainct.c:277-290 | the row groups delivered cover the image height |
| `PrepController.CreateContextBuffer` | jpeg/jcprepct.c:266-305 | the list of row pointers shows the three row groups cyclically, one group beyond either end |
| `PrepController.Prep.PadTop` | jpeg/jcprepct.c:216-226 | the rows above the image are copies of the first row |
| `PrepController.Prep.PreProcessContext` | jpeg/jcprepct.c:194-259 | for any division of the input into calls, each downsampled group has exactly its image rows around it, the first and last repeated beyond the edges, and all input is used in order |
| `CompressMain.MainCtl.ProcessDataSimpleMain` | jpeg/jcmainct.c:112-158 | iMCU rows reach the compressor once each and in order; acknowledged rows are those consumed, less one while suspended |
| `HeaderRoundTrip.DqtBack` | jpeg/jdmarker.c:487-542 | a DQT segment, 8 or 16 bits wide, reads back to the same table in natural order |
| `HeaderRoundTrip.DhtBack` | jpeg/jdmarker.c:416-484 | a DHT segment reads back to the same counts and symbols |
| `HeaderRoundTrip.SofBack` | jpeg/jdmarker.c:235-295 | a SOF segment reads back to the same frame |
| `HeaderRoundTrip.SosBack` | jpeg/jdmarker.c:298-363 | a SOS segment reads back to the same scan parameters |
| `HeaderRoundTrip.SegmentStep` | jpeg/jdmarker.c:949-1095 | a decoder that meets a legal segment goes on exactly behind it, knowing exactly what it carries besides what it knew |
| `HeaderLayout.DqtLayout` | jpeg/jcmarker.c:142-178 | a DQT segment byte by byte: 16-bit entries exactly if one exceeds 255, in zigzag order |
| `HeaderLayout.DhtLayout` | jpeg/jcmarker.c:182-216 | a DHT segment byte by byte: class and slot, 16 counts, the symbols |
| `HeaderLayout.SofLayout` | jpeg/jcmarker.c:275-302 | a SOF segment byte by byte |
| `HeaderLayout.SosLayout` | jpeg/jcmarker.c:306-343 | an SOS segment byte by byte |
| `MarkerReader.QuantsRedo` | jpeg/jdmarker.c:487-542 | reading a DQT segment again from its start comes out the same whatever a broken-off reading left in the tables it defines |
| `MarkerReader.TablesRedo` | jpeg/jdmarker.c:416-484 | the same for DHT |
| `MarkerReader.MarkerReader.GetDqt` | jpeg/jdmarker.c:487-542 | parses the segment as specified; if it suspends, the restart point stays and a later call comes out as if nothing had been read |
| `MarkerReader.MarkerReader.GetDht` | jpeg/jdmarker.c:416-484 | the same for DHT, with its table-space checks |
| `MarkerReader.MarkerReader.GetSof` | jpeg/jdmarker.c:234-295 | the frame, or an error for a second SOF, an empty image or a wrong length |
| `MarkerReader.MarkerReader.GetSos` | jpeg/jdmarker.c:298-363 | the scan parameters, or an error for a missing SOF, a wrong length or an unknown component |
| `MarkerReader.MarkerReader.NextMarker` | jpeg/jdmarker.c:871-915 | the next marker that is neither stuffing nor padding; discarded bytes may be dropped before a suspension without missing it |
| `MarkerReader.MarkerReader.ReadMarkers` | jpeg/jdmarker.c:949-1095 | reads to SOS or EOI; a suspension changes nothing about where reading on leads |
| `MarkerReader.ReadInPieces` | jpeg/jdmarker.c:871-1095 | reading a file in any pieces comes to what reading it at once comes to |
| `MarkerWriter.StoredIsSame` | jpeg/jcmarker.c:181-216 | the counts and symbols of a Huffman table survive a DHT segment |
| `MarkerWriter.MarkerWriter.EmitDqt` | jpeg/jcmarker.c:141-178 | sends the table unless it is marked as sent, and reports whether it needs 16 bits; a decoder then has it |
| `MarkerWriter.MarkerWriter.EmitDht` | jpeg/jcmarker.c:181-216 | the same for a Huffman table |
| `MarkerWriter.MarkerWriter.SetHuffTable` | jpeg/jchuff.c:836-837 | a replaced table counts as not sent, so what is marked as sent is always what a decoder has |
| `MarkerWriter.MarkerWriter.WriteFrameHeader` | jpeg/jcmarker.c:491-540 | succeeds exactly if tables are there and the size fits; a decoder then has the tables of all components and the frame; the SOF code is that of `FrameCodeIs` |
| `MarkerWriter.MarkerWriter.FrameCodeIs` | jpeg/jcmarker.c:509-538 | C2 for progressive; otherwise C0 exactly for 8-bit samples, tables 0 and 1 only and quantization steps up to 255, else C1 |
| `MarkerWriter.MarkerWriter.WriteScanHeader` | jpeg/jcmarker.c:548-592 | succeeds exactly if the tables needed are there; a decoder reads exactly these bytes and then has the tables, the restart interval and the scan parameters, also when a segment was left out as already known |
| `MarkerWriter.MarkerWriter.WriteHeaders` | jpeg/jcmarker.c:466-592 | reading the header of a file, whatever follows it, consumes exactly the written bytes and restores quantization tables, Huffman tables, restart interval, frame and scan |

## Left out

- GenOptimalTable: asks for at least one and at most 254 counted symbols, which `OptimizedScan.CountsUsable`, `OptimizedAcScan.AcCountsUsable` and `OptimizedDcScan.DcCountsUsable` show for every scan; and for fewer than 10^9 counts in all, the start value of the minimum searches, beyond which the source may leave trees unmerged. OptimalTables, EncodeAcOptimized and EncodeDcOptimized ask for the same.
- EmitBits: a destination that empties its buffer and then refuses within the same MCU is outside the protocol of `jpeg/jdatadst.c`: the bytes already gone would be generated again.
- EncodeDcOptimized: is about first scans, since refinement scans of DC send no symbols.
- WholeImage: which blocks make up the MCUs of a scan is a parameter, each block at most once and no real block of its components missing; legal tables are also asked for in the slots of DC refinement scans, which send no symbols.
- PrepareForPass: of the other modules' start_pass calls only the entropy coder's and the headers are recorded.
- LimitTo16: that the limited lengths are the best of at most 16 bits is not claimed, as the section K.2 adjustment does not promise it.
- DecodeMcu: nothing is said about the coefficients once the segment has ended early and fill bits are in use.
- ProcessRestart: a wrong marker ends the model's decoding; the heuristics of `jpeg_resync_to_restart` are not modelled.
- GetSof: component fields written before a suspension are not modelled; the routine sets them again before they are used.
- GetSos: component pointers, next_restart_num and input_scan_number are not modelled.
- GetDht: entries of huffval past the last symbol are zero here; in the source they are what the stack held.
- GetDqt: a quantization table slot used for the first time starts out as zeros here.
- SkipVariable: a source that skips ahead by itself is one that has the bytes.
- EmitByte: the destination of the marker writer always has room; a refusal there is an error in the source.
- WriteHeaders: the JFIF and Adobe segments that may stand between SOI and DQT are not written.
- ProcessDataContextMain: one component stands for all; their row-group counts agree by `Geometry.RowGroupsAgree`. The upsampler is a consumer that takes any number of groups.
- PreProcessContext: one component stands for all, and downsampling is observed, not computed; the mode without context rows is a special case with easier indices.
- CompressData: the forward DCT is a parameter that supplies each real block.
- CompressPasses: row-by-row work inside a pass, the input-side modules and progress monitoring are not modelled.
- Allocation, virtual arrays, overflow of image dimensions in the size computations, trace and warning messages.
- Arithmetic coding: the reader accepts its frame markers, and the decoder selection that then refuses is not modelled.
- APPn and COM contents, saved markers, abbreviated table files and buffered-image mode.
- Decoder-side coefficient controller, block smoothing, upsampling, colour conversion and quantization, the transforms, command-line tools and `config/`.
