# Verification of the entropy core of zstd

A Dafny model of the vendored zstd sources under `ext/zstdruby/libzstd`: the FSE (tANS) codec with
its bit stream, the headers of Huffman trees that are built on it, the thread pool, the XXH32 and
XXH64 hashes, the histogram functions and the overlapping copy. `dafny verify dfyconfig.toml`
checks the whole project.

## Main results

- **Bit stream.** `StreamRoundTrip.ReadBack`: under any schedule of reloads that keeps the bits to be
  read in the register, the reader returns the pushed values last one first, and its end test says
  exactly when nothing is left.
- **Payload.** Encoder and decoder are written independently and meet only in their tables.
  `PayloadRoundTrip.RoundTripExactly`: decoding what `FSE_compress_usingCTable` stored gives the
  source back if and only if no symbol owns the whole table. `Decoder.Decompress`: on every input,
  valid or corrupt, the four-symbol loop with its tail is decoding one symbol at a time.
  `PayloadFormat.DecodedExactly`: a payload decodes to an output if and only if its number is a chain
  of states for that output, in terms of divisions and remainders only.
- **Tables.** `CellLaws.StrideLaw` says which symbol each cell holds, as arithmetic on multiples of the
  stride, for every distribution; `CellLaws.DecodeCellLaw` what the cell reads.
  `DefaultOffsets.OffsetTableIsBuilt`: the constant table of offset codes in the decompressor is,
  cell by cell, the one that `FSE_buildDTable` makes of the predefined distribution.
- **Distribution headers.** `NCountRoundTrip.HeaderRoundTrip`: print and parse, with any bytes
  after the header. `NCountReader.ReadNCount`: on any bytes the outcome is that of a parsing function,
  and success is a distribution if and only if no symbol owns all of a table of 2^15 cells.
  `HeaderLaws.RunLaw` and `HeaderLaws.CountLaw` give the format in closed form.
- **Normalisation.** `Normalize.NormalizeCount`: all paths conserve the table size and give an entry
  to exactly the symbols that occur. The first method keeps every entry but the largest within one
  cell above and two cells below its share, and the correction of the largest is bounded
  (`Entries.FirstEntryIsClose`, `Entries.CorrectionBound`); `EntryLaws.FrequentEntry` says exactly
  when a share is rounded up. It is abandoned exactly when the largest entry would lose half of itself
  or more. `Normalize.NormalizeM2` then always succeeds, and the symbols that it scales keep their share
  of what is left (`Shares.ScaledShare`).
- **Whole blocks.** `FseBlock.CompressWeights` and `FseBlock.DecompressWksp` join all of that:
  histogram, normalisation, header, tables and payload, from bytes to bytes. Both determine their
  outcome, refusals included, on any input (`Normalize.NormalizationIsUnique`,
  `FseBlock.OutcomeIsUnique`). For Huffman weights the unchecked writer and encoder, which are
  chosen for large buffers, agree with the checked ones (`WriteBounds.HeaderBound`, `WriteBounds.PayloadBound`).
- **Huffman trees.** `HufStats.ReadStats`: weights are accepted if and only if one more weight
  makes the Kraft sum a power of two. `HufRoundTrip.WriteThenRead`: writing a complete prefix code
  and reading it back, with any bytes after it, recovers every code length; codes of at most 129
  symbols are always stored, given 14 bytes and room for the raw format (`HufRoundTrip.TreeIsStored`).
- **Thread pool.** One step for each critical section; `Pool.ReachableInv`,
  `Pool.JobsStartOnceInOrder`, `Pool.ShutdownLosesNoJob`, `Pool.Drains` and
  `Pool.PromiseOverRuns` hold over all runs, as does the meaning of a full queue (`Pool.FullMeans`), and
  the class `Pool.ThreadPool` with its ring buffer refines the steps.
- **Hashes and copies.** Streaming equals one-shot for every split (`XxHash64.XXH64State.Digest`,
  `XxHash32.XXH32State.Digest`); known values that depend on every constant fix what is computed
  (`XxHash64Answers`, `XxHash32Answers`). `ZSTD_wildcopy` refines a copy of one byte after the other.

## How it is modelled

`Bits` gives shifts, masks and highest bits as recursive functions on natural numbers, so that the
64-bit register is a number below 2^64. A bit stream is a stack of fields: a field is a value and
a width, `Pack` is the number they make up, and streams and headers are compared with it. A
`size_t` has 64 bits, so the tests that the sources mark as static are resolved. A `short` has 16
bits in two's complement.

The order in which the code fills the table (`Spread.Order`) and the table that results
(`Spread.Cells`) are defined once; both builders and both ways of spreading are proved to produce
that table. `Tables` defines the two coding tables over it and proves that their steps are inverse.

Buffers are arrays, pointers are indices. Structures that the sources update through a pointer are
classes where they own a buffer or are shared (`CStream`, `DStream`, `ThreadPool`, the hash
states); coder states, which are a number, are passed and returned.

## What the proofs brought to light

- The stop-on-overflow decoder never stops by itself when one symbol owns the whole table: the
  round trip fails then, and only then (`PayloadRoundTrip.RoundTripExactly`; an input is in
  `Counterexamples.FullSymbolBreaksRoundTrip`). `Normalize.NormalizeCount` never makes such a table.
- `FSE_readNCount` narrows every count to a short. One symbol that owns all of a table of 2^15 cells,
  which sixteen one bits announce (`NCountReader.FullCount`), leaves -32768 in the table, and the
  call succeeds (`Counterexamples.ReadFullSymbol`); that is the only case
  (`NCountReader.NarrowedWhenFull`). No table is ever built from it: 12 is the largest table log that
  the decoder accepts (`FseBlock.ReadIsValid`).
- `HUF_readStats` declares its workspace for weights up to 11 (`common/huf.h`, line 181), although
  weights go up to 12. A compressed description whose table log is 6 and whose header gives a count
  to symbol 12, used or not, is refused with that workspace; all others pass that test
  (`HufStats.StatsWorkspace`, with a description in `Counterexamples.LargestWeightIsRefused`). No
  description that `HUF_writeCTable` makes is affected: its table log is always 5
  (`HufRoundTrip.FiveBits`, `HufRoundTrip.WrittenWithinLimits`).
- `FSE_NCountWriteBound` is enough for at most 17 symbols (`WriteBounds.HeaderBound`). For 18 there is
  a distribution whose header makes the writer store one byte more
  (`Counterexamples.WriteBoundFails`), and a buffer of exactly that size is written without checks.
- `FSE_BLOCKBOUND` is enough for table logs of at most 8 (`WriteBounds.PayloadBound`). Above, sources
  that do not follow their distribution need more (`Counterexamples.BlockBoundFails`).
- The size that `FSE_buildCTable_wksp` checks for its workspace drops two bytes when maxSymbolValue
  is odd. For counts 31 and 1 the packed layout needs one byte more (`TableBuilders.OneByteShort`);
  `TableBuilders.StoresFit` says exactly when it suffices. `HUF_compressWeights` passes a workspace
  that always does (`FseBlock.WeightStoresFit`).
- A pool created with queue size 0 is documented to take a job only when a thread is free. After
  the limit has been lowered below the number of busy workers it takes one nevertheless
  (`Pool.LoweredLimitBreaksPromise`); without that it never does (`Pool.PromiseOverRuns`).
- `FSE_normalizeM2` has an error exit against rounding to zero. It is never taken: after
  `FSE_minTableLog` every symbol that is scaled has a share of at least one cell
  (`Normalize.NormalizeM2`, `Normalize.SecondThreshold`).
- `FSE_getMaxNbBits` is documented to give a symbol of weight 3 the cost of weight 2
  (`common/fse.h`, line 472). It gives one bit less: weights 2, 4, 8, ... are charged one bit more than
  they ever cost (`Tables.HighestCost`).
- In `HUF_readStats` the test that the number of longest codes is even can never fail once the
  others have passed (`HufStats.Completed`).
- `POOL_tryAdd` reports success for a job that it drops because the pool is shutting down
  (`Pool.ThreadPool.TryAdd`).

## Model

| member | source | states |
|---|---|---|
| BitStream.PackPush | ext/zstdruby/libzstd/common/bitstream.h:180-188 | pushing a field widens the stream by its width and puts the low bits of its value above everything pushed before |
| BitStream.PopField | ext/zstdruby/libzstd/common/bitstream.h:110-113 | from any number that holds a stack of fields, shifting and masking at the top gives the last field pushed, and what is below holds all the others |
| BitStream.ReadAllReturnsPushes | ext/zstdruby/libzstd/common/bitstream.h:110-113 | reading the widths of all fields, last one first, gives every field the value that was pushed, and ends exactly at position 0 |
| BitStream.ClosedStream | ext/zstdruby/libzstd/common/bitstream.h:236-242 | in a closed stream the highest bit is the end mark and stands just above all fields, which are held below it |
| BitStream.StreamIsAStack | ext/zstdruby/libzstd/common/bitstream.h:110-118 | the bytes of a closed stream alone determine where the fields end, and reading from there gives back every field in reverse order, also when the stream is shorter than the register |
| BitStream.AddRepresents | ext/zstdruby/libzstd/common/bitstream.h:180-188 | finished bytes and register together hold exactly the pushed fields before and after a push |
| BitStream.FlushRepresents | ext/zstdruby/libzstd/common/bitstream.h:221-231 | moving whole bytes from the register to the buffer changes nothing about the fields that are held |
| BitStream.CStream.constructor | ext/zstdruby/libzstd/common/bitstream.h:150-160 | the stream starts empty at its start pointer; it is usable exactly when the buffer is larger than the register |
| BitStream.CStream.AddBits | ext/zstdruby/libzstd/common/bitstream.h:180-188 | appends one field, of the low nbBits of the value, and keeps the stream valid |
| BitStream.CStream.AddBitsFast | ext/zstdruby/libzstd/common/bitstream.h:193-200 | does the same as AddBits for a value without bits above nbBits |
| BitStream.CStream.StoreRegister | ext/zstdruby/libzstd/common/bitstream.h:226 | the store stays inside the buffer, leaves everything before the start pointer, and makes the whole bytes of the register part of the stream |
| BitStream.CStream.FlushBits | ext/zstdruby/libzstd/common/bitstream.h:221-231 | the fields are unchanged, fewer than 8 bits stay in the register, ptr never decreases and never passes endPtr, and a flush that does not fit is on record as clamped for ever |
| BitStream.CStream.FlushBitsFast | ext/zstdruby/libzstd/common/bitstream.h:205-214 | for fields that leave room for a store of the register, the same without a check: nothing is ever clamped |
| BitStream.CStream.Close | ext/zstdruby/libzstd/common/bitstream.h:236-242 | returns 0 exactly when the fields with the end mark do not fit before endPtr; otherwise no flush of the whole run was clamped and the n bytes are exactly the packing of all fields and the end mark |
| BitStream.DStream.Init | ext/zstdruby/libzstd/common/bitstream.h:254-300 | refuses an empty buffer and one without end mark with the error of its size class; otherwise as many bits are unread as lie below the end mark, for buffers longer and shorter than the register |
| BitStream.ReadShort | ext/zstdruby/libzstd/common/bitstream.h:268-291 | the register of a stream shorter than the register is the little-endian number of its bytes |
| BitStream.RegisterWindow | ext/zstdruby/libzstd/common/bitstream.h:307-322 | a window of the register is the same window of the number of the whole buffer |
| BitStream.FastWindow | ext/zstdruby/libzstd/common/bitstream.h:346-351 | two shifts of a 64-bit register read the same bits as a shift and a mask when at least one bit is read |
| BitStream.DStream.LookBits | ext/zstdruby/libzstd/common/bitstream.h:330-342 | gives the next nbBits of the whole stream whenever they are in the register, and always a value of nbBits |
| BitStream.DStream.LookBitsFast | ext/zstdruby/libzstd/common/bitstream.h:346-351 | gives the same bits as LookBits for every width of at least 1 that is in the register |
| BitStream.DStream.ReadBits | ext/zstdruby/libzstd/common/bitstream.h:362-367 | reads what LookBits shows and lowers the number of unread bits by nbBits |
| BitStream.DStream.ReadBitsFast | ext/zstdruby/libzstd/common/bitstream.h:371-377 | reads the same as ReadBits for a width of at least 1 that is in the register |
| BitStream.DStream.ReloadInternal | ext/zstdruby/libzstd/common/bitstream.h:384-392 | the unread bits stay the same and at least 57 of them are in the register |
| BitStream.DStream.Reload | ext/zstdruby/libzstd/common/bitstream.h:412-444 | never changes which bits are unread; each of the four statuses is returned under exactly its condition on the old position and count; unfinished promises 57 bits in the register, end of buffer and completed that all bits are; after an overflow it stays so for ever |
| BitStream.DStream.EndOfDStream | ext/zstdruby/libzstd/common/bitstream.h:449-452 | holds, after a reload, exactly when all bits and no more have been read |
| StreamRoundTrip.MaybeReload | ext/zstdruby/libzstd/common/bitstream.h:407-444 | a reload changes neither the fields that are left nor their number, and puts 57 bits, or all that are left, into the register |
| StreamRoundTrip.PopOne | ext/zstdruby/libzstd/common/bitstream.h:358-367 | reading the width of the last field gives its value and leaves the reader just above the others |
| StreamRoundTrip.ReadBack | ext/zstdruby/libzstd/common/bitstream.h:110-118 | from the bytes and the widths alone, the reader returns every pushed value in reverse order under any schedule of reloads, BIT_endOfDStream telling at each point whether a pushed bit is left, as long as each read finds its bits in the register, which a reload before every read of at most 57 bits guarantees |
| Spread.WalkInjective | ext/zstdruby/libzstd/common/fse.h:623 | the odd stride visits no cell twice in one walk over the table |
| Spread.WalkReturns | ext/zstdruby/libzstd/compress/fse_compress.c:166 | after as many strides as there are cells the walk is back on cell 0 |
| Spread.AllVisited | ext/zstdruby/libzstd/compress/fse_compress.c:166 | the walk visits every cell |
| Spread.LowWalkComplete | ext/zstdruby/libzstd/compress/fse_compress.c:161-164 | skipping the cells above highThreshold, the walk meets as many different cells as there are at or below it |
| Spread.OrderIsPermutation | ext/zstdruby/libzstd/compress/fse_compress.c:115-167 | the order in which cells are filled is a permutation of the table, with one symbol for each cell |
| Spread.PlacedIsUnique | ext/zstdruby/libzstd/compress/fse_compress.c:115-167 | once every symbol is placed the table is determined, whatever it held before |
| Spread.CellsOcc | ext/zstdruby/libzstd/compress/fse_compress.c:155-165 | each symbol of the finished table has exactly as many cells as its count says, and one if that is -1 |
| CellLaws.LowCell | ext/zstdruby/libzstd/compress/fse_compress.c:104-107 | the j-th symbol of low probability has the j-th cell from the top |
| CellLaws.StrideLaw | ext/zstdruby/libzstd/compress/fse_compress.c:153-166 | of the multiples k * (5 * size / 8 + 3) modulo the size, for k = 0, 1, 2, ..., those that fall on cells of low probability are skipped; cell number k of the others has symbol s exactly when as many unskipped multiples come before it as there are cells of symbols before s, and fewer than with s |
| CellLaws.PlainStrideLaw | ext/zstdruby/libzstd/common/fse.h:623 | without symbols of low probability, cell k * (5 * size / 8 + 3) modulo the size has symbol s exactly when k lies between the sums of the counts before s and up to s, for every distribution and every k |
| SpreadTable.WriteEight | ext/zstdruby/libzstd/compress/fse_compress.c:128 | storing s * 0x0101010101010101 writes eight copies of s, and nothing before them |
| SpreadTable.LayRun | ext/zstdruby/libzstd/compress/fse_compress.c:128-131 | the stores for one symbol write a multiple of eight copies, at least eight, from its position on, and nothing else |
| SpreadTable.LayDown | ext/zstdruby/libzstd/compress/fse_compress.c:120-135 | laying down eight bytes at a time leaves all symbols in order, each as often as its count says, and changes nothing from the end of the furthest store on |
| SpreadTable.SpreadUnrolled | ext/zstdruby/libzstd/compress/fse_compress.c:140-153 | the unrolled two-stage path fills the same table as the definition and ends on cell 0 |
| SpreadTable.NextPosition | ext/zstdruby/libzstd/compress/fse_compress.c:162-164 | striding out of the low-probability area ends on the next cell of the order, or on 0 after the last one |
| SpreadTable.SpreadOneByOne | ext/zstdruby/libzstd/compress/fse_compress.c:155-166 | the one-symbol-at-a-time path fills the same table as the definition and ends on cell 0 |
| SpreadTable.SpreadSymbols | ext/zstdruby/libzstd/common/fse_decompress.c:91-147 | whichever path is chosen, the table is the one of the definition, so the encoder and the decoder give every cell the same symbol, the one that CellLaws.StrideLaw says |
| Tables.DecodeCell | ext/zstdruby/libzstd/common/fse_decompress.c:149-156 | the entry of a cell has the symbol of the cell, at most tableLog bits, and a refill interval inside the table |
| CellLaws.DecodeCellLaw | ext/zstdruby/libzstd/common/fse_decompress.c:149-156 | weight of the symbol plus number of earlier cells of that symbol, shifted left by nbBits, lies between the size and twice the size of the table, and is the new state plus the size |
| DefaultOffsets.OffsetTableIsBuilt | ext/zstdruby/libzstd/decompress/zstd_decompress_block.c:402-421 | the constant decoding table of offset codes is, cell by cell, the table that the builder makes of the predefined distribution, low probabilities included |
| Tables.RefillBounds | ext/zstdruby/libzstd/common/fse_decompress.c:154-155 | tableLog - highbit(next) bits bring every next state to the width of the table |
| Tables.FastModeReadsBits | ext/zstdruby/libzstd/common/fse_decompress.c:78-87 | in fast mode every cell asks for at least one bit |
| Tables.SlotInjective | ext/zstdruby/libzstd/compress/fse_compress.c:169-173 | sorting cells by symbol and rank gives every cell a slot of its own |
| Tables.NbBitsOutCorrect | ext/zstdruby/libzstd/common/fse.h:458 | one addition and a shift by 16 compute exactly the number of bits that brings the state into [weight, 2*weight) |
| Tables.HighestCost | ext/zstdruby/libzstd/common/fse.h:470-479 | an absent symbol has a cost of tableLog + 1; for any other the cost is at most tableLog and bounds the bits of every state, and the last state attains it, except for weights 2, 4, 8, ..., which are charged one bit too many, so that 3 gets less than 2 |
| Tables.FindStateCorrect | ext/zstdruby/libzstd/common/fse.h:460 | the looked-up slot belongs to the symbol and names its cell of the right rank |
| Tables.NextXIsCell | ext/zstdruby/libzstd/common/fse.h:460 | the next encoder state names the cell of the symbol whose own state is x >> nbBits |
| Tables.RefillRestores | ext/zstdruby/libzstd/common/fse.h:540-549 | that cell reads as many bits as were emitted, and with them gives the old state back |
| Tables.StepInverse | ext/zstdruby/libzstd/common/fse.h:454-461 | for every state x of the table width and every symbol with a nonzero count: the cell reached has that symbol, reads the number of bits emitted, and its new state plus the low bits of x is x |
| Tables.CoversMeansShift | ext/zstdruby/libzstd/common/fse_decompress.c:153-155 | a cell covers a state exactly when shifting the state brings it to the state of the cell |
| Tables.IntervalsTile | ext/zstdruby/libzstd/common/fse_decompress.c:149-156 | for every symbol of nonzero count each table state is covered by one and only one of its cells |
| TableBuilders.StartPositions | ext/zstdruby/libzstd/compress/fse_compress.c:100-113 | start positions are the sums of the weights before each symbol; low-probability symbols are placed from the top |
| TableBuilders.EnterStates | ext/zstdruby/libzstd/compress/fse_compress.c:169-173 | the state table holds, sorted by symbol and rank, the state of every cell |
| TableBuilders.BuildTransforms | ext/zstdruby/libzstd/compress/fse_compress.c:175-200 | every symbol gets the transform of its weight and start position |
| TableBuilders.BuildCTable | ext/zstdruby/libzstd/compress/fse_compress.c:68-214 | refuses exactly when the size check fails, otherwise builds the encoding table of the distribution |
| TableBuilders.LastRunDecides | ext/zstdruby/libzstd/compress/fse_compress.c:120-135 | the stores go at most eight bytes beyond the symbols, and at most six exactly when the last count is neither 0 nor one more than a multiple of eight |
| TableBuilders.StoresFit | ext/zstdruby/libzstd/common/fse.h:263-264 | with the packed layout, all stores stay inside a workspace of exactly the checked size if and only if maxSymbolValue is even or the last count is neither 0 nor one more than a multiple of eight; two more bytes are always enough |
| TableBuilders.OneByteShort | ext/zstdruby/libzstd/compress/fse_compress.c:80-87 | counts 31 and 1 at table log 5: 76 bytes pass the check, and the last store ends at byte 77 |
| TableBuilders.StartStates | ext/zstdruby/libzstd/common/fse_decompress.c:74-89 | first states are the weights, low-probability symbols are placed, and fast mode is chosen exactly when no count reaches half the table |
| TableBuilders.BuildDecoding | ext/zstdruby/libzstd/common/fse_decompress.c:149-156 | every cell gets the entry of the definition |
| TableBuilders.BuildDTable | ext/zstdruby/libzstd/common/fse_decompress.c:58-159 | succeeds exactly for a workspace that is large enough and a distribution within limits, names the error otherwise, and then builds the decoding table of the distribution |
| Encoder.FirstStateIsWeight | ext/zstdruby/libzstd/common/fse.h:446-449 | the smallest state of a symbol, shifted by its largest bit count, is its weight |
| Encoder.InitCState2 | ext/zstdruby/libzstd/common/fse.h:443-452 | starts at the first cell of the symbol, for no bits |
| Encoder.EncodeSymbol | ext/zstdruby/libzstd/common/fse.h:454-461 | emits the bits of the state and moves to the next state of the step |
| Encoder.FlushCState | ext/zstdruby/libzstd/common/fse.h:463-467 | emits the state and flushes |
| Encoder.StartEncoding | ext/zstdruby/libzstd/compress/fse_compress.c:569-577 | after the first two or three symbols, by parity of the length, states and stream are those of the one-symbol-at-a-time encoder |
| Encoder.EncodeRest | ext/zstdruby/libzstd/compress/fse_compress.c:579-603 | so they are after the symbols that join to a multiple of four and after the four-symbol loop, for every length |
| Encoder.PartOfPayload | ext/zstdruby/libzstd/compress/fse_compress.c:567-602 | what has been emitted at any flush is no wider than the payload |
| Encoder.Compress | ext/zstdruby/libzstd/compress/fse_compress.c:551-608 | 0 is returned exactly when the source has at most two symbols or the payload does not fit; otherwise the n bytes are exactly the packing of the payload, and nothing before the start is touched; without the checks in the flushes the same, where all stores fit |
| Encoder.PayloadIsUnique | ext/zstdruby/libzstd/compress/fse_compress.c:551-608 | the payload is determined by the distribution, the table log and the source |
| Decoder.BuiltTablesAreClosed | ext/zstdruby/libzstd/common/fse_decompress.c:149-156 | a built decoding table never leads outside itself, whatever bits are read |
| Decoder.DecodeSymbol | ext/zstdruby/libzstd/common/fse.h:540-562 | returns the symbol of the state; the next state is inside the table for any register contents, and the right one when its bits were there, with the ordinary and with the fast reader |
| Decoder.InitDState | ext/zstdruby/libzstd/common/fse.h:517-524 | the first tableLog bits become a state inside the table |
| Decoder.DecodeFours | ext/zstdruby/libzstd/common/fse_decompress.c:197-215 | the unrolled loop moves symbols from the stream to the output without changing the whole result |
| Decoder.DecodeTail | ext/zstdruby/libzstd/common/fse_decompress.c:217-232 | one symbol of the tail; when the bits run out the symbol of the other state ends the output |
| Decoder.Decompress | ext/zstdruby/libzstd/common/fse_decompress.c:173-236 | on every input, valid or corrupt, the result or error is that of decoding one symbol at a time, and never more than the capacity is written |
| PayloadFormat.LoopIsChain | ext/zstdruby/libzstd/common/fse_decompress.c:197-232 | a run of the decoding loop is a chain: each state is refilled by its own bits to the state after the next, and the chain ends with the first state that cannot be refilled |
| PayloadFormat.ChainIsLoop | ext/zstdruby/libzstd/common/fse_decompress.c:197-232 | and every chain is a run of the loop |
| PayloadFormat.DecodedExactly | ext/zstdruby/libzstd/common/fse_decompress.c:173-236 | a payload decodes to an output if and only if the output fits and the number of the payload is such a chain for it: the two states just below the highest bit, the one of the first symbol on top, and all refills below, stated by division and remainder |
| PayloadRoundTrip.StepBack | ext/zstdruby/libzstd/common/fse.h:540-549 | one decoding step undoes one encoding step: symbol, unread fields, and both states |
| PayloadRoundTrip.PayloadOpens | ext/zstdruby/libzstd/common/fse_decompress.c:187-193 | the decoder finds the two final states of the encoder and all its fields |
| PayloadRoundTrip.DecodeReturnsSource | ext/zstdruby/libzstd/common/fse_decompress.c:217-232 | from matching states and fields the decoder returns the rest of the source |
| PayloadRoundTrip.RoundTrip | ext/zstdruby/libzstd/compress/fse_compress.c:551-608 | for every distribution in which no symbol owns the whole table, every source of at least two symbols in it, and every capacity that is large enough, decoding the stored payload gives exactly the source |
| PayloadRoundTrip.FullSymbolReadsNothing | ext/zstdruby/libzstd/common/fse_decompress.c:153-154 | if a symbol owns the whole table no cell reads a bit |
| PayloadRoundTrip.NeverStops | ext/zstdruby/libzstd/common/fse_decompress.c:219-232 | a table that reads no bits makes the decoder run until the output is full |
| PayloadRoundTrip.RoundTripExactly | ext/zstdruby/libzstd/common/fse_decompress.c:173-236 | decoding a stored payload gives the source back if and only if no symbol owns the whole table |
| PayloadFormat.StoredIsChain | ext/zstdruby/libzstd/compress/fse_compress.c:552-608 | what the encoder stores is such a chain for its source, if and only if no symbol owns the table |
| Counterexamples.FullSymbolBreaksRoundTrip | ext/zstdruby/libzstd/common/fse_decompress.c:173-236 | three equal symbols that own a table of 32 cells, their tables and their two payload bytes: decoding fails for every capacity |
| Existence.SomePartners | ext/zstdruby/libzstd/compress/fse_compress.c:156-211 | every valid distribution has an encoding and a decoding table |
| Existence.SomeBlock | ext/zstdruby/libzstd/compress/huf_compress.c:134-171 | every two or more symbols of a valid distribution that ends at its last count have a block, of the size that was computed |
| NCountCode.CountRoundTrip | ext/zstdruby/libzstd/common/entropy_common.c:132-155 | the variable-width code of a count is read back with the count and its width, whatever follows, for every remaining total |
| HeaderLaws.CountLaw | ext/zstdruby/libzstd/compress/fse_compress.c:285-299 | the code of a count by ranges, with 2^b <= remaining < 2^(b+1): b bits, b+1 bits, or b+1 bits and raised, for every count that can still be written |
| HeaderLaws.CountExample | ext/zstdruby/libzstd/compress/fse_compress.c:292-299 | with 157 remaining: the values 0 to 97 in 7 bits, 98 to 127 in 8 bits, and 128 to 157 as 226 to 255 |
| HeaderLaws.RunLaw | ext/zstdruby/libzstd/compress/fse_compress.c:261-284 | a run of k further zeros takes 2 * (k / 3) + 2 bits and is the number 4^(k/3) * (k % 3 + 1) - 1, for every k |
| HeaderLaws.ExampleBytes | ext/zstdruby/libzstd/compress/fse_compress.c:234-326 | the header of the counts 10, five zeros, -1, 21 for table log 5 is the four bytes B0 E2 E0 03 |
| NCountCode.ValidEnds | ext/zstdruby/libzstd/compress/fse_compress.c:260 | every distribution that sums to the table size ends at its last nonzero count |
| NCountCode.EndIsUnique | ext/zstdruby/libzstd/compress/fse_compress.c:260 | and at no other place |
| NCountWriter.WriteLongRun | ext/zstdruby/libzstd/compress/fse_compress.c:265-274 | groups of 24 zeros are stored as 16 ones each, two bytes at a time |
| NCountWriter.WriteShortRun | ext/zstdruby/libzstd/compress/fse_compress.c:275-281 | the rest of a run is stored as groups of three and a remainder |
| NCountWriter.Lower | ext/zstdruby/libzstd/compress/fse_compress.c:302 | threshold and bit count follow the remaining total |
| NCountWriter.WriteCount | ext/zstdruby/libzstd/compress/fse_compress.c:291-303 | stores the code of one count |
| NCountWriter.Round | ext/zstdruby/libzstd/compress/fse_compress.c:260-312 | one round emits exactly the fields of its symbols, and stops or fails only where the distribution or the space demands it |
| NCountWriter.StoreLast | ext/zstdruby/libzstd/compress/fse_compress.c:318-326 | stores the last bits exactly when two bytes are left |
| NCountWriter.WriteNCount | ext/zstdruby/libzstd/compress/fse_compress.c:233-327 | fails for a table log out of range and for counts that never reach the table size; otherwise fails exactly when the space is short, and stores exactly the packed header; where writing is promised to be safe, leaving out the checks makes no difference |
| WriteBounds.CountWidth | ext/zstdruby/libzstd/compress/fse_compress.c:222-231 | a count takes at most tableLog bits, and one more only when at most one cell has been handed out and it takes at least all but three of the table |
| WriteBounds.StepOver | ext/zstdruby/libzstd/compress/fse_compress.c:222-231 | from one count to the next, only a single zero in between takes more than tableLog bits for each symbol: two more, or one once four cells have been handed out |
| WriteBounds.HeaderIsSlim | ext/zstdruby/libzstd/compress/fse_compress.c:222-231 | a header takes at most four bits and half a bit for each symbol more than tableLog bits for each symbol and four for the table log |
| WriteBounds.HeaderBound | ext/zstdruby/libzstd/compress/fse_compress.c:222-231 | for at most seventeen symbols FSE_NCountWriteBound is enough for everything that the writer stores |
| Counterexamples.WriteBoundFails | ext/zstdruby/libzstd/compress/fse_compress.c:222-231 | for eighteen symbols it need not be: a distribution for which the writer needs 22 bytes and the bound is 21 |
| WriteBounds.WriteHeader | ext/zstdruby/libzstd/compress/fse_compress.c:330-340 | for at most seventeen symbols the writer without checks, chosen by buffer size, gives what the one with checks gives |
| WriteBounds.PayloadBound | ext/zstdruby/libzstd/common/fse.h:236 | for table logs of at most 8 FSE_BLOCKBOUND leaves room for every store of the register |
| Counterexamples.BlockBoundFails | ext/zstdruby/libzstd/common/fse.h:236 | for every table log from 9 to 12 and every length from 64 on there are a table and a source for which it does not |
| WriteBounds.CompressUsingCTable | ext/zstdruby/libzstd/compress/fse_compress.c:610-620 | for table logs of at most 8 the encoder without checks, chosen by buffer size, gives what the one with checks gives |
| NCountReader.TrailingOnesByComplement | ext/zstdruby/libzstd/common/entropy_common.c:88 | counting the trailing zeros of the complement counts the groups of ones that start the register |
| NCountWindow.RunInside | ext/zstdruby/libzstd/common/entropy_common.c:83-112 | a run that ends inside the buffer is read as a whole |
| NCountWindow.WrapRepeats | ext/zstdruby/libzstd/common/entropy_common.c:118-127 | beyond the end of the buffer its last four bytes are read again and again |
| NCountWindow.ParseInside | ext/zstdruby/libzstd/common/entropy_common.c:81-178 | a header that ends inside the buffer is read as if the buffer went on for ever |
| NCountReader.Refill | ext/zstdruby/libzstd/common/entropy_common.c:120-129 | moving the window keeps it inside the buffer and on the same position of the stream, which beyond the end wraps around into the last four bytes |
| NCountReader.SkipRun | ext/zstdruby/libzstd/common/entropy_common.c:88-118 | the zeros of a run and the position after it, in blocks of twelve groups, also where positions wrap around at the end of the buffer; it always stops |
| NCountReader.TakeCount | ext/zstdruby/libzstd/common/entropy_common.c:132-155 | takes the count that the code says, and never more than remains |
| NCountReader.ReadZeros | ext/zstdruby/libzstd/common/entropy_common.c:82-130 | the position after a run, or the end of the alphabet, exactly as the parsing functions say |
| NCountReader.LastEntered | ext/zstdruby/libzstd/common/entropy_common.c:146-165 | the last count makes the books balance, also when it is narrowed to a short |
| NCountReader.ReadCounts | ext/zstdruby/libzstd/common/entropy_common.c:81-178 | terminates on any bytes and reads and writes only inside its buffers; succeeds exactly if parsing with wrapping positions does and ends inside the buffer, and then hands out exactly the total; only the last count can be changed by the narrowing to a short |
| NCountReader.FullCount | ext/zstdruby/libzstd/common/entropy_common.c:133-154 | the one count that a short cannot hold is read from sixteen one bits when all 2^15 cells are left, and from nothing else |
| NCountReader.NarrowedWhenFull | ext/zstdruby/libzstd/common/entropy_common.c:154 | the stored counts are those that were read if and only if no symbol owns all of a table of 2^15 cells |
| NCountReader.FittingHeader | ext/zstdruby/libzstd/common/entropy_common.c:69-187 | the outcome with wrapping positions is that of the header itself whenever the header ends inside the buffer |
| NCountReader.ReadNCountLong | ext/zstdruby/libzstd/common/entropy_common.c:69-187 | on any 8 bytes or more, the outcome is determined: tableLog_tooLarge exactly for a first nibble above 10, corruption exactly if parsing with wrapping positions fails or ends beyond the buffer, and else the counts and the size that it reads; success means that the absolute entries sum to the table size and end at maxSymbolValue, and that all entries are at least -1 if and only if no symbol owns all of a table of 2^15 cells |
| Counterexamples.ReadFullSymbol | ext/zstdruby/libzstd/common/entropy_common.c:154 | the bytes FA FF 0F and five zeros are accepted with size 3 and table log 15, and leave -32768 in the table |
| NCountReader.ReadNCount | ext/zstdruby/libzstd/common/entropy_common.c:42-66 | the same for buffers of any size, shorter ones with added zeros that must not be needed; a header that ends inside the buffer is read exactly |
| NCountRoundTrip.RunRoundTrip | ext/zstdruby/libzstd/common/entropy_common.c:82-112 | a stored run of zeros of any length is read back with its length and width, whatever follows |
| NCountRoundTrip.RestIsRead | ext/zstdruby/libzstd/common/entropy_common.c:81-178 | from any symbol on, the parser reads the rest of a stored header |
| NCountRoundTrip.ParseReturnsHeader | ext/zstdruby/libzstd/common/entropy_common.c:42-187 | parsing a stored header gives the table log and all counts up to the last nonzero one |
| NCountRoundTrip.HeaderRoundTrip | ext/zstdruby/libzstd/compress/fse_compress.c:233-327 | print and parse: whatever FSE_readNCount returns for the bytes of a header, with or without bytes after them, is the same table log, the same last symbol and exactly the written size, and the same counts if and only if no symbol owns all of a table of 2^15 cells |
| Shares.SharesAreClose | ext/zstdruby/libzstd/compress/fse_compress.c:478-496 | multiplying by a truncated 2^62/total instead of dividing gives each symbol its share of the table, up to one cell more or two cells less |
| Shares.RareIsClose | ext/zstdruby/libzstd/compress/fse_compress.c:489-491 | a symbol at or below the threshold has a share of at most one cell |
| Shares.ScaledShare | ext/zstdruby/libzstd/compress/fse_compress.c:446-460 | the difference of two rounded running totals is less than one cell below the exact share of the symbol in what is left, and less than one and a half cells above it |
| Entries.FirstEntryIsClose | ext/zstdruby/libzstd/compress/fse_compress.c:486-501 | the entry of the first method, for absent, rare and frequent symbols alike, is its share of the table up to one cell more or two cells less |
| Entries.FirstMassIsClose | ext/zstdruby/libzstd/compress/fse_compress.c:486-501 | for any number of symbols, the cells handed out are at most one per symbol above and two per symbol below the total share |
| Entries.CorrectionBound | ext/zstdruby/libzstd/compress/fse_compress.c:502-507 | so what the largest entry has to absorb is at most one cell down, and two cells up, for each symbol that occurs |
| Entries.OneCellShare | ext/zstdruby/libzstd/compress/fse_compress.c:388-424 | a symbol that the second method gives one cell at once has at most one and a half cells of share, in the input or in what was left before the second pass |
| EntryLaws.RareEntry | ext/zstdruby/libzstd/compress/fse_compress.c:490-493 | a symbol with at most one cell of share gets the low-probability entry, an absent one none |
| EntryLaws.FrequentEntry | ext/zstdruby/libzstd/compress/fse_compress.c:475-497 | with q whole cells of share a symbol gets q + 1 exactly when the rest exceeds 0, 473195, 504333, 520860, 550000, 700000, 750000, 830000 units of 2^-20 cells for q = 0, ..., 7, and q otherwise, for every count, total and table log |
| EntryLaws.SecondLaw | ext/zstdruby/libzstd/compress/fse_compress.c:502 | the first method is abandoned exactly when twice the excess plus one reaches the largest entry |
| EntryLaws.OneCellLaw | ext/zstdruby/libzstd/compress/fse_compress.c:388 | the first threshold is exactly one and a half cells of share |
| EntryLaws.RaisedLaw | ext/zstdruby/libzstd/compress/fse_compress.c:415-417 | the threshold is raised exactly when the others average more occurrences per remaining cell than it allows, and then is exactly one and a half cells of what they have left |
| EntryLaws.MinTableLogLaw | ext/zstdruby/libzstd/compress/fse_compress.c:348-355 | k is large enough exactly when there are fewer occurrences than 2^k or the largest symbol is below 2^(k-1) |
| Entries.NothingNegative | ext/zstdruby/libzstd/compress/fse_compress.c:379-463 | without low-probability entries the second method leaves no negative entry |
| Normalize.MoreCellsThanSymbols | ext/zstdruby/libzstd/compress/fse_compress.c:347-355 | the minimum table log leaves more cells than symbols that occur, and two cells for each symbol or more cells than occurrences |
| Normalize.StartedBooks | ext/zstdruby/libzstd/compress/fse_compress.c:390-424 | cells handed out and occurrences left after a pass are functions of the histogram and the threshold alone |
| Normalize.AssignRare | ext/zstdruby/libzstd/compress/fse_compress.c:390-409 | first pass of the second method: absent, rare, small and waiting symbols get their entries, and cells handed out and occurrences left add up |
| Normalize.AssignMore | ext/zstdruby/libzstd/compress/fse_compress.c:418-424 | second pass: the entries are those of a first pass with the higher threshold, and the books still add up |
| Normalize.GiveToMax | ext/zstdruby/libzstd/compress/fse_compress.c:428-437 | the first of the largest counts takes all of the rest, no other entry changes, and the distribution is complete |
| Normalize.RoundRobin | ext/zstdruby/libzstd/compress/fse_compress.c:439-444 | giving the rest away one by one terminates and completes the distribution; every positive entry grew by the same number of rounds, or one more up to a cut |
| Normalize.EnoughCellsLeft | ext/zstdruby/libzstd/compress/fse_compress.c:415-426 | the second pass keeps at least two thirds of the cells that were left before it |
| Normalize.SecondThreshold | ext/zstdruby/libzstd/compress/fse_compress.c:415-426 | with the raised threshold every symbol that still waits has a share of at least one cell |
| Normalize.FirstThreshold | ext/zstdruby/libzstd/compress/fse_compress.c:415 | without the second pass it has one as well |
| Normalize.RaiseThreshold | ext/zstdruby/libzstd/compress/fse_compress.c:415-426 | the second pass ends with the entries of the final threshold, which does not wrap around, and leaves every waiting symbol a share of at least one of the remaining cells |
| Normalize.StepFor | ext/zstdruby/libzstd/compress/fse_compress.c:446-448 | the scale is rounded so that the last running total lands exactly on the last cell |
| Normalize.ScaleRest | ext/zstdruby/libzstd/compress/fse_compress.c:446-460 | hands out exactly the rest, each waiting symbol getting its share of it up to less than one cell less or one and a half cells more; no other entry changes, and the error exit is never taken |
| Normalize.NormalizeM2 | ext/zstdruby/libzstd/compress/fse_compress.c:379-463 | always succeeds: the entries sum to the table size, are zero exactly for absent symbols, and are those of the final threshold with the rest given to the most frequent symbol, dealt out in turn, or shared in proportion |
| Normalize.Rounded | ext/zstdruby/libzstd/compress/fse_compress.c:493-497 | a frequent symbol gets its truncated share, or one more exactly when the fraction beats the table, and never nothing |
| Normalize.RoundAll | ext/zstdruby/libzstd/compress/fse_compress.c:486-501 | stops exactly at a symbol that makes up the whole input; otherwise every entry is that of the first method, what is left is the table size less their sum, and the entry to correct is the first of the largest |
| Normalize.CorrectLargest | ext/zstdruby/libzstd/compress/fse_compress.c:507 | the largest entry absorbs the rounding error, and no other entry changes |
| Normalize.NobodyOwnsAll | ext/zstdruby/libzstd/compress/fse_compress.c:487 | no symbol gets the whole table unless it makes up the whole input |
| Normalize.NormalizeCount | ext/zstdruby/libzstd/compress/fse_compress.c:465-525 | each refusal has its condition, all of them on the table log; otherwise the absolute entries sum to exactly 2^tableLog, an entry is 0 exactly when its count is 0, and no symbol owns the table; the second method gives the entries exactly when the largest one would lose half of itself or more, and otherwise every entry is that of the first method, close to its share, but the largest, which takes the rounding error |
| Normalize.NormalizationIsUnique | ext/zstdruby/libzstd/compress/fse_compress.c:465-525 | what is stated about the entries determines all of them: two distributions of the same histogram, total and table log are equal |
| EntryLaws.TwoOfForty | ext/zstdruby/libzstd/compress/fse_compress.c:475-497 | the histogram 0, 2, 38 becomes 0, 2, 30 for table log 5: a share of 1.6 cells is rounded up |
| EntryLaws.OneOfSeven | ext/zstdruby/libzstd/compress/fse_compress.c:446-461 | seven symbols that occur once go through the second method and become 5, 4, 5, 5, 4, 5, 4 for table log 5 |
| Histogram.HistogramTotal | ext/zstdruby/libzstd/compress/hist.c:50-53 | the counts of all symbols add up to the size of the input |
| Histogram.LargestOfCounts | ext/zstdruby/libzstd/compress/hist.c:58-61 | the largest count up to the largest symbol is the largest of all |
| Histogram.FindLargest | ext/zstdruby/libzstd/compress/hist.c:55-56 | finds the largest symbol that occurs |
| Histogram.CountSimple | ext/zstdruby/libzstd/compress/hist.c:39-64 | the table is the histogram, with the largest symbol and the largest count |
| Histogram.CountWord | ext/zstdruby/libzstd/compress/hist.c:92-96 | the four bytes of a word are each counted once, in four tables |
| Histogram.CountStripes | ext/zstdruby/libzstd/compress/hist.c:89-115 | the four tables together count every byte before the returned position, with a word read ahead |
| Histogram.Combine | ext/zstdruby/libzstd/compress/hist.c:120-124 | the sum of the four tables is the histogram, and its maximum the largest count |
| Histogram.CountParallel | ext/zstdruby/libzstd/compress/hist.c:77-138 | same table, same largest symbol and same largest count as CountSimple; with the check, an error exactly when a symbol exceeds the limit |
| FseBlock.OptimalTableLog | ext/zstdruby/libzstd/compress/fse_compress.c:357-374 | the table log is within the limits and large enough for the alphabet, also when the subtraction wraps around |
| FseBlock.OptimalTableLogLaw | ext/zstdruby/libzstd/compress/fse_compress.c:357-369 | each table log from 6 to 12 is reached exactly when the symbols need it, or when it is wanted and the source is longer than 2^(k + minus), or so short that the subtraction wraps around |
| FseBlock.BlockHeaderIsRead | ext/zstdruby/libzstd/common/fse_decompress.c:253-263 | the header of a block is read back exactly, and what follows it is its payload |
| FseBlock.BlockPayloadDecodes | ext/zstdruby/libzstd/common/fse_decompress.c:282-285 | the payload of a block is decoded to its source if and only if no symbol owns the table |
| FseBlock.WorkspaceSuffices | ext/zstdruby/libzstd/common/fse_decompress.c:265-268 | the workspace check of the decoder implies the one of the table builder |
| FseBlock.ReadIsValid | ext/zstdruby/libzstd/common/fse_decompress.c:262-277 | what has been read is a distribution that tables can be built from exactly when its table log is at most 12 |
| FseBlock.DecompressWksp | ext/zstdruby/libzstd/common/fse_decompress.c:243-289 | on any input: each refusal has its condition, the header is what ReadNCount makes of the bytes, and otherwise the outcome, success or error, is that of decoding the bytes after the header with the table of the counts in the header; a block of src is decoded to src if and only if it is within the limits of table log and workspace and no symbol owns the table |
| FseBlock.DecompressWkspBmi2 | ext/zstdruby/libzstd/common/fse_decompress.c:304-313 | the same, with header, counts and table as one value |
| FseBlock.NormalizedWeights | ext/zstdruby/libzstd/compress/huf_compress.c:172-177 | what normalisation leaves can be written as a header and has a cell for every weight |
| FseBlock.WeightTableLog | ext/zstdruby/libzstd/compress/huf_compress.c:172 | five or six bits always suffice for weights up to 12 |
| FseBlock.WeightTableFits | ext/zstdruby/libzstd/compress/huf_compress.c:141-143 | the scratch buffer is large enough for every such table |
| FseBlock.SizesForWeights | ext/zstdruby/libzstd/common/fse.h:235-273 | the workspace and buffer sizes for Huffman weights, in bytes |
| FseBlock.WeightStoresFit | ext/zstdruby/libzstd/compress/huf_compress.c:141-143 | and every store of the table builder stays inside it |
| FseBlock.CompressCounted | ext/zstdruby/libzstd/compress/huf_compress.c:170-187 | on every outcome the distribution is the normalisation of the histogram of the weights for the chosen table log; an error is returned exactly if its header does not fit, 0 exactly if the payload does not, and else the size of a block that holds exactly the weights; all stores of the table builder stay inside its workspace |
| FseBlock.CompressWeights | ext/zstdruby/libzstd/compress/huf_compress.c:147-190 | the outcome is determined by the weights and the capacity: 1 exactly for equal weights, 0 for at most one weight and for weights that occur once each, and otherwise an error, 0 or the size of a block of the weights as the header and the payload of their normalised table do or do not fit |
| FseBlock.OutcomeIsUnique | ext/zstdruby/libzstd/compress/huf_compress.c:147-190 | no two outcomes meet these conditions for the same weights and capacity |
| FseBlock.HeaderHasRoom | ext/zstdruby/libzstd/compress/huf_compress.c:179-182 | thirteen bytes are enough for the header of every normalised table of weights |
| HufStats.KraftParity | ext/zstdruby/libzstd/common/entropy_common.c:302-303 | the used code space is the number of longest codes plus an even number |
| HufStats.LongestCodesArePaired | ext/zstdruby/libzstd/common/entropy_common.c:302-303 | in a complete code the number of longest codes is even and at least two |
| HufStats.CompletionIsForced | ext/zstdruby/libzstd/common/entropy_common.c:284-297 | table log and last weight are determined by the other weights |
| HufStats.CompletionNeeds | ext/zstdruby/libzstd/common/entropy_common.c:282-297 | every weight list that can be completed passes all tests of the reader |
| HufStats.Completed | ext/zstdruby/libzstd/common/entropy_common.c:284-299 | a rest that is a power of two gives a weight that completes the code if longest codes are present; their number is even in any case, so the parity test cannot fail |
| HufStats.CollectWeights | ext/zstdruby/libzstd/common/entropy_common.c:272-281 | accepts exactly weights up to 12, counts them, and totals their shares modulo 2^32 |
| HufStats.InferLast | ext/zstdruby/libzstd/common/entropy_common.c:282-297 | accepts a total exactly when it is nonzero, below 2^12 and a power of two away from the next power of two |
| HufStats.FinishStats | ext/zstdruby/libzstd/common/entropy_common.c:271-306 | the decoded weights are accepted if and only if one more weight makes the Kraft sum exactly 2^tableLog with longest codes present; then rankStats is the histogram of all weights |
| HufStats.ReadNibbles | ext/zstdruby/libzstd/common/entropy_common.c:262-267 | two weights per byte, high half first |
| HufStats.RawBytes | ext/zstdruby/libzstd/compress/huf_compress.c:282-288 | the raw format byte by byte: 127 plus the number of weights, then each pair of weights as 16 * first + second, and an odd last weight in a high half; exactly the descriptions that reader and writer mean |
| HufStats.TwoWeights | ext/zstdruby/libzstd/common/entropy_common.c:258-267 | the bytes 129 and 0x21 hold the weights 2 and 1, which another 1 completes |
| HufStats.ReadWeights | ext/zstdruby/libzstd/common/entropy_common.c:255-270 | on any bytes the outcome is determined: both size tests, the room for raw weights and their nibbles, or whatever decoding the block gives; so both formats give back the weights they describe |
| HufStats.ReadStats | ext/zstdruby/libzstd/common/entropy_common.c:243-306 | on any bytes the weights that were read, or the error in reading them, are determined, and they are accepted if and only if one more weight completes the code; success means a Kraft sum of exactly 2^tableLog with tableLog <= 12, all weights <= tableLog, and rankStats their histogram; a description of weights is accepted if and only if they can be completed and, if compressed, the workspace is large enough |
| HufStats.ConvertLengths | ext/zstdruby/libzstd/compress/huf_compress.c:266-271 | every code length becomes its weight |
| HufStats.WriteNibbles | ext/zstdruby/libzstd/compress/huf_compress.c:285-288 | every weight can be read back from the packed bytes |
| HufStats.WriteRaw | ext/zstdruby/libzstd/compress/huf_compress.c:281-289 | each refusal has its condition; otherwise the bytes describe the weights |
| HufStats.TreeFollowsWeights | ext/zstdruby/libzstd/compress/huf_compress.c:273-289 | the outcome for the weights decides the outcome for the tree: compressed exactly if the block is shorter than half the number of weights |
| HufStats.CompressedPays | ext/zstdruby/libzstd/compress/huf_compress.c:273-289 | a stored description is compressed exactly when it takes at most half a byte per weight, its size byte included |
| HufStats.WriteCTable | ext/zstdruby/libzstd/compress/huf_compress.c:248-290 | the outcome is determined by the weights of all symbols but the last and the room: an error for more than 256 symbols, for no room at all and for a header that does not fit, compressed exactly when worthwhile, otherwise raw, refused exactly for more than 128 weights or lack of room; what is stored describes the weights, and a code of one symbol is the byte 127 |
| HufStats.TreeOutcomeIsUnique | ext/zstdruby/libzstd/compress/huf_compress.c:248-290 | no two outcomes meet these conditions for the same weights and room |
| HufStats.DescriptionWithTrailing | ext/zstdruby/libzstd/common/entropy_common.c:227-233 | a description may be followed by any bytes |
| HufStats.KraftIsCodeSpace | ext/zstdruby/libzstd/compress/huf_compress.c:266-271 | the Kraft sum of the weights is the code space taken by the lengths |
| HufStats.CodeIsComplete | ext/zstdruby/libzstd/compress/huf_compress.c:266-271 | the weights of a complete prefix code are complete |
| HufStats.CodeIsRecovered | ext/zstdruby/libzstd/common/entropy_common.c:284-299 | a reader that has the weights of all symbols but the last of a complete prefix code recovers the table log and every code length, that of the last symbol included |
| HufStats.StatsWorkspace | ext/zstdruby/libzstd/common/huf.h:181 | the workspace of HUF_readStats is large enough for a compressed description if and only if its table log is below 6 or its header gives no count to symbol 12 |
| Counterexamples.LargestWeightIsRefused | ext/zstdruby/libzstd/common/huf.h:181 | the weights 12 to 1, in a compressed description of at most 128 bytes with table log 6, are a code that can be completed and are refused with that workspace; four bytes more are enough |
| HufRoundTrip.FiveBits | ext/zstdruby/libzstd/compress/huf_compress.c:170 | the table log of compressed weights is 5 for all lists that are long enough to be compressed |
| HufRoundTrip.WrittenWithinLimits | ext/zstdruby/libzstd/common/entropy_common.c:234-240 | whatever the writer stores compressed has table log 5 and is within the limits of HUF_readStats |
| HufRoundTrip.DescriptionIsReadable | ext/zstdruby/libzstd/common/entropy_common.c:255-283 | any stored description, followed by any bytes, is raw, or compressed with no full symbol and within the limits of the reader, and its first byte tells the size that was written |
| HufRoundTrip.TreeIsStored | ext/zstdruby/libzstd/compress/huf_compress.c:248-290 | a tree of at most 129 symbols is stored in every buffer of at least 14 bytes that can hold it raw |
| HufRoundTrip.WriteThenRead | ext/zstdruby/libzstd/compress/huf_compress.c:248-291 | HUF_writeCTable_wksp followed by HUF_readStats with its own workspace and any trailing bytes: whenever a complete prefix code is stored (a code of at most 129 symbols is stored in every buffer of at least 14 bytes that can hold it raw), the reader takes exactly the bytes written and returns the table log, the number of symbols, every weight and with it every code length, and the histogram of the weights |
| Pool.InitInv | ext/zstdruby/libzstd/common/pool.c:115-159 | a new pool satisfies the invariant |
| Pool.AddKeepsInv | ext/zstdruby/libzstd/common/pool.c:271-284 | adding a job keeps the invariant |
| Pool.PopKeepsInv | ext/zstdruby/libzstd/common/pool.c:86-92 | taking a job keeps it: the job is run by one worker and was not started before |
| Pool.FinishKeepsInv | ext/zstdruby/libzstd/common/pool.c:96-100 | finishing a job keeps it |
| Pool.ExitKeepsInv | ext/zstdruby/libzstd/common/pool.c:74-82 | a worker may leave at shutdown: a nonempty queue still has a worker |
| Pool.ResizeKeepsInv | ext/zstdruby/libzstd/common/pool.c:215-241 | raising or lowering the number of threads keeps it |
| Pool.StepKeepsInv | ext/zstdruby/libzstd/common/pool.c:67-104 | every critical section keeps: accepted = queued + running + finished, each started job is run by one worker or finished, queue within its size, and a nonempty queue has a worker that has not exited |
| Pool.ReachableInv | ext/zstdruby/libzstd/common/pool.c:67-310 | the invariant holds in every state of every run, over all interleavings |
| Pool.RunExtends | ext/zstdruby/libzstd/common/pool.c:271-284 | over any run accepted jobs keep their numbers, started and finished jobs stay so, and after shutdown no job is accepted |
| Pool.FullMeans | ext/zstdruby/libzstd/common/pool.c:261-268 | in every state of every run a pool with a queue is full exactly while queueSize jobs are waiting, and a pool without one exactly while a job is waiting or as many workers as allowed are busy |
| Pool.WaitingJobCanStart | ext/zstdruby/libzstd/common/pool.c:77-89 | before shutdown a waiting job can be started whenever fewer workers are busy than allowed |
| Pool.JobsStartOnceInOrder | ext/zstdruby/libzstd/common/pool.c:86-92 | of any two pops in a run the later one starts a later job: jobs start in the order of acceptance, each at most once |
| Pool.JobsFinishOnce | ext/zstdruby/libzstd/common/pool.c:94-100 | no job finishes twice |
| Pool.PopRespectsLimit | ext/zstdruby/libzstd/common/pool.c:74-75 | a pop never makes more workers busy than the limit |
| Pool.QuietMeansFinished | ext/zstdruby/libzstd/common/pool.c:194-200 | empty queue and no busy worker hold exactly when every accepted job has finished |
| Pool.ShutdownLosesNoJob | ext/zstdruby/libzstd/common/pool.c:74-84 | when all workers have exited, every job accepted at any time has been run |
| Pool.WorkerStepDoesWork | ext/zstdruby/libzstd/common/pool.c:67-104 | every step of a worker lowers a measure by one |
| Pool.NeverStuck | ext/zstdruby/libzstd/common/pool.c:74-84 | after shutdown a pool with a living worker always has a worker step to take, however low the limit |
| Pool.Drains | ext/zstdruby/libzstd/common/pool.c:77-82 | after shutdown workers take a bounded number of steps, and where none is left all workers are gone and all accepted jobs have been run |
| Pool.PromiseOverRuns | ext/zstdruby/libzstd/common/pool.c:255-268 | over every run of a pool of queue size 0: it counts as full in every state without a free thread if and only if no resize goes below the number of busy workers while the queue is empty |
| Pool.AcceptedWhenFree | ext/zstdruby/libzstd/common/pool.c:255-268 | in such runs every accepted job finds an empty queue and a free thread |
| Pool.LoweredLimitBreaksPromise | ext/zstdruby/libzstd/common/pool.c:264-267 | a run in which lowering the limit makes such a pool accept a job that no thread may start |
| Pool.NextSlot | ext/zstdruby/libzstd/common/pool.c:87 | one step modulo the queue size moves from each slot to the next |
| Pool.TakeFromRing | ext/zstdruby/libzstd/common/pool.c:86-87 | without its first job the ring holds the other queued jobs in order |
| Pool.AddToRing | ext/zstdruby/libzstd/common/pool.c:281-282 | the slot at the tail holds no queued job |
| Pool.EmptyAgain | ext/zstdruby/libzstd/common/pool.c:89 | head meets tail after a pop exactly when the job was the only one |
| Pool.ThreadPool.IsQueueFull | ext/zstdruby/libzstd/common/pool.c:261-268 | the test on head and tail, or on the flag and the counters for one slot, is the abstract fullness of the queue |
| Pool.ThreadPool.AddInternal | ext/zstdruby/libzstd/common/pool.c:271-284 | appends the job to the queue, or after shutdown changes nothing |
| Pool.ThreadPool.TryOnceToAdd | ext/zstdruby/libzstd/common/pool.c:286-296 | waits exactly while the queue is full and the pool is not shutting down |
| Pool.ThreadPool.TryAdd | ext/zstdruby/libzstd/common/pool.c:299-310 | succeeds exactly when the queue is not full; the job is accepted exactly when it also is not shutting down |
| Pool.ThreadPool.TakeJob | ext/zstdruby/libzstd/common/pool.c:86-89 | returns the oldest queued job |
| Pool.ThreadPool.Take | ext/zstdruby/libzstd/common/pool.c:74-92 | waits, exits or takes the oldest job, each on its condition |
| Pool.ThreadPool.Done | ext/zstdruby/libzstd/common/pool.c:96-100 | the job of the worker is finished |
| Pool.ThreadPool.TryOnceToJoin | ext/zstdruby/libzstd/common/pool.c:194-200 | stops waiting exactly when every accepted job has finished |
| Pool.ThreadPool.StartShutdown | ext/zstdruby/libzstd/common/pool.c:165-173 | sets the flag and nothing else |
| Pool.ThreadPool.ResizeInternal | ext/zstdruby/libzstd/common/pool.c:215-241 | refuses 0 threads; otherwise sets the limit and adds the missing threads |
| Pool.Create | ext/zstdruby/libzstd/common/pool.c:115-159 | no pool for 0 threads, otherwise an empty one |
| Stripes.AbsorbAppend | ext/zstdruby/libzstd/common/xxhash.h:3591-3612 | absorbing data in two pieces is absorbing the first and then its rest with the second, for any state and block size |
| XxHash64.Finalize | ext/zstdruby/libzstd/common/xxhash.h:3439-3462 | the loops over eight, four and one bytes compute the tail of the hash from the low five bits of the length |
| XxHash64.OneShot | ext/zstdruby/libzstd/common/xxhash.h:3483-3516 | computes the hash of the input |
| XxHash64Answers.HashOfNothing | ext/zstdruby/libzstd/common/xxhash.h:3410-3418 | no bytes, seed 0: EF46DB3751D8E999 |
| XxHash64Answers.HashOfStripeAndTail | ext/zstdruby/libzstd/common/xxhash.h:3483-3516 | the bytes 1 to 45 with seed 0123456789ABCDEF: D8D254DE111FEB90, through one stripe, eight bytes, four and one |
| XxHash64.XXH64State.constructor | ext/zstdruby/libzstd/common/xxhash.h:3560-3569 | nothing hashed yet |
| XxHash64.XXH64State.FillBuffer | ext/zstdruby/libzstd/common/xxhash.h:3591-3600 | completing the buffered bytes to a stripe leaves the same state and the same rest as hashing buffer and input together |
| XxHash64.XXH64State.AbsorbStripes | ext/zstdruby/libzstd/common/xxhash.h:3602-3612 | absorbs all whole stripes and stops at the rest |
| XxHash64.XXH64State.Update | ext/zstdruby/libzstd/common/xxhash.h:3573-3620 | lanes, buffer and length stand for the old data followed by the input, for every size of both |
| XxHash64.XXH64State.Digest | ext/zstdruby/libzstd/common/xxhash.h:3624-3641 | after any updates the digest is the one-shot hash of all data, unless the 64-bit length has wrapped around to less than a stripe |
| XxHash32.Finalize | ext/zstdruby/libzstd/common/xxhash.h:2951-2977 | the loops over four and one bytes compute the tail of the hash |
| XxHash32.OneShot | ext/zstdruby/libzstd/common/xxhash.h:3040-3070 | computes the hash of the input |
| XxHash32Answers.HashOfNothing | ext/zstdruby/libzstd/common/xxhash.h:2923-2931 | no bytes, seed 0: 02CC5D05 |
| XxHash32Answers.HashOfStripeAndTail | ext/zstdruby/libzstd/common/xxhash.h:3040-3070 | the bytes 1 to 21 with seed 01234567, through one stripe, four bytes and one |
| XxHash32.XXH32State.constructor | ext/zstdruby/libzstd/common/xxhash.h:3114-3123 | nothing hashed yet |
| XxHash32.XXH32State.CountLength | ext/zstdruby/libzstd/common/xxhash.h:3138-3139 | the length is kept modulo 2^32, and the flag tells for ever whether a whole stripe has been seen |
| XxHash32.XXH32State.FillBuffer | ext/zstdruby/libzstd/common/xxhash.h:3147-3157 | as for XXH64 |
| XxHash32.XXH32State.AbsorbStripes | ext/zstdruby/libzstd/common/xxhash.h:3159-3169 | as for XXH64 |
| XxHash32.XXH32State.Update | ext/zstdruby/libzstd/common/xxhash.h:3128-3178 | lanes, buffer, length and flag stand for the old data followed by the input |
| XxHash32.XXH32State.Digest | ext/zstdruby/libzstd/common/xxhash.h:3182-3198 | after any updates the digest is the one-shot hash of all data, of any length, also past 2^32 bytes |
| WildCopy.ForwardCopyRepeats | ext/zstdruby/libzstd/common/zstd_internal.h:212-213 | copying forward one byte at a time from an earlier, overlapping source repeats the bytes between source and destination |
| WildCopy.ForwardPrefix | ext/zstdruby/libzstd/common/zstd_internal.h:208-216 | copying more does not change the first bytes |
| WildCopy.BlockIsForward | ext/zstdruby/libzstd/common/zstd_internal.h:170-197 | a block copy that does not write what it still has to read is a forward copy |
| WildCopy.Copy8 | ext/zstdruby/libzstd/common/zstd_internal.h:170-177 | is a forward copy of 8 bytes between blocks that do not overlap |
| WildCopy.Copy16 | ext/zstdruby/libzstd/common/zstd_internal.h:183-197 | reads all 16 bytes before it writes any, whether the blocks overlap or not |
| WildCopy.ShortOffset | ext/zstdruby/libzstd/common/zstd_internal.h:223-227 | steps of 8 bytes are a forward copy of at most 8 bytes too many |
| WildCopy.LongOffset | ext/zstdruby/libzstd/common/zstd_internal.h:228-246 | one and then pairs of steps of 16 bytes are a forward copy of at most 32 bytes too many |
| WildCopy.Wildcopy | ext/zstdruby/libzstd/common/zstd_internal.h:216-247 | the first length bytes of the destination are those of a one-byte-at-a-time copy, for every length and every allowed distance, and no byte outside the destination and 32 bytes after it changes |

## Left out

- NCountReader.ReadNCount: `charnum` is not limited to 32 bits; it could only wrap around in runs of zeros longer than 350 million bytes.
- BitStream.DStream.ReadBits: `bitsConsumed` is not limited to 32 bits; it could only wrap around after 2^32 bits had been read past the end without a reload.
- TableBuilders.BuildDTable: only for distributions that sum to the table size, which its caller has checked; for others the source may return an error or leave cells unset.
- NCountWriter.WriteNCount: that a buffer of at least `FSE_NCountWriteBound` is safe to write is proved for at most 17 symbols (`WriteBounds.HeaderBound`), and false in general for 18.
- Encoder.Compress: that a buffer of at least `FSE_BLOCKBOUND` is safe to flush to is proved for table logs of at most 8 (`WriteBounds.PayloadBound`); above, nothing is claimed for sources that follow their distribution.
- TableBuilders.BuildCTable: its arrays are allocated apart from each other; where the stores end when they share one workspace is stated by `TableBuilders.StoresFit`.
- HufStats.ReadStats: for more than 2^20 weights the 32-bit total may wrap around, and nothing is claimed; every caller has room for 256.
- HufStats.WriteCTable: the compressed weights go through a buffer of their own before they are stored behind the size byte, so bytes after the result are not modelled.
- XxHash64.XXH64State.Digest: nothing is claimed when the length has wrapped around 2^64 to less than a stripe.
- WildCopy.Wildcopy: source and destination are places in one memory, which also stands for separate buffers.
- FseBlock.CompressWeights: the size and alignment of its own workspace are not checked.
- `BIT_reloadDStreamFast`, BMI2 and other intrinsics, big-endian machines and a 32-bit `size_t`.
- The RLE table and approximate symbol costs (`FSE_buildCTable_rle`, `FSE_bitCost`).
- Huffman coding proper and everything above it: literals, blocks, frames, levels, the Ruby binding.
- Pool: liveness and fairness of the condition variables, failures of allocation and of thread creation, destruction, and calls after it. Waiting is modelled as a pass of the loop that changes nothing.
- XXH3, vectorised code, the jump-table form of `XXH32_finalize`, aligned reads and the canonical form of hashes.
- Histogram.CountSimple: its counters are not limited to 32 bits; they could only wrap around for inputs of 2^32 bytes or more.
- Histogram.CountParallel: the same.
- Histograms: the choice between the two functions by input size, and inputs of 1 to 3 bytes for the parallel one, which reads four bytes first.
