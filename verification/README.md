# Verified model of the compression engine and the boot-time memory code

Two parts of the system are modelled and proved here, in Dafny, each in the form of the original:
methods that change arrays and fields in place, proved against specifications on values.

**The DEFLATE compressor and decompressor** (`packages/miniz`; RFC 1951). The specification side is
a stream of blocks (`DeflateStream.Part`), each a list of literals and matches with a pair of
prefix codes, or stored bytes; `StreamBits` says which bits a stream is and `Unpack` which bytes it
stands for. The compressor (`LzParser.Compressor`, with the ring dictionary, the token buffer, the
bit writer, the code construction and the block writer it uses) is proved to keep, over every
sequence of calls, that the blocks written so far and the open block stand for the input taken in so
far. The decompressor (`InflateStream.Decompressor`, with the bit reader, the decoding tables and
a reader for each kind of block) is proved, over every sequence of calls and wherever it is
interrupted, to produce `Unpack` of any stream it is given, and to refuse blocks of the reserved type,
with wrong stored lengths, with codes that are badly described or not acceptable, or with a match
before the start of a flat output. Neither proof knows the code of the other side; `RoundTrip` joins them, for
every input and every setting, and for streams that have only been flushed so far. Both sides share the
definition of the format; lemmas give it in the numbers of the standard (`WireFormat`,
`BlockTables.FixedCodes`, `Canonical.CodeIsSpace`, `BlockHeader.SentBegins`, `LzSymbols.LengthValues`). That needs the assertion in `tdefl_flush_block` that a block never fills
the output buffer. The source calls a block with its own codes that does not fit "extremely unlikely
(if not impossible)"; it is impossible (`FlushBlock.DynamicFits`), because limiting an optimal code to
15 bits costs at most a bit for each symbol sent (`RankLengths.LimitedRanks`).

| files | what they model |
|---|---|
| `Bits`, `Symbols`, `Options` | bit strings, bitwise operators on unsigned integers, shared types |
| `OptimalCode`, `HuffmanTree`, `TreeCost`, `MinRedundancy`, `LengthLimit`, `RankLengths`, `RadixSort`, `Canonical`, `HuffTable` | from symbol counts to a length-limited canonical prefix code; optimality of the unlimited one, and how little the limit costs |
| `Tokens`, `TokenBuffer`, `LzSymbols`, `BlockCode`, `CompressLz`, `BitWriter` | tokens, their packed buffer, and their bits |
| `CodeLengths`, `BlockHeader`, `BlockTables`, `CompressBlock`, `BlockCost`, `DeflateStream`, `WireFormat`, `FlushBlock` | block headers and whole blocks, how long they can get, and which ones are refused |
| `HashChain`, `RingDict`, `LzParser` | hash chains, match finder and lazy parser |
| `DecodeTable`, `BitReader`, `HuffDecode`, `KnownInput`, `OutputWindow`, `HeaderReader`, `StoredReader`, `InflateBlock`, `Inflate`, `StreamBlocks`, `InflateStream`, `InflateCalls` | the decompressor: readers for headers, stored blocks and symbols, the loop over blocks, and any sequence of calls |
| `RoundTrip` | both together |
| `Adler` | the checksum with its deferred reduction |
| `NameIndex` | the heap-sorted index of file names in an archive, and the searches |

**Memory management at boot.** `PageTables` and `BootPaging` model the four-level page tables that
the boot loader builds in physical memory, with the self-map in slot 511: they implement a map from
pages to entries, and the recursive addresses land on the entries that were written. `UefiMemory`
models the hand-over of the firmware's memory map, which a bootstrap allocator and an iterator
consume at the same time, and `Bitmap` the kernel's initialisation of its page-frame bitmap from it.

Conventions: unsigned integers of the source are natural numbers with their bounds stated (`u8`,
`u16`, `u32`), and wrap-around is written out where the code relies on it (16-bit position
differences, the 32-bit bit buffer, 64-bit address sums); page-table entries and addresses are
64-bit vectors. Ghost fields (`tokens`, `input`, `sent`, `produced`, `tree`, `mapped`, `handed`)
record what the real fields stand for. Answers of the firmware's page allocator are a parameter
(`BootPaging.Answers`), and so are the contents of memory that is not initialised and which page tables
exist when the kernel starts. The decompressor's two statuses for missing input are one.

The code is followed where its comments say something else. The comment at `entryAddr` asks for
tables aligned to 512 GB; for upper-half addresses it needs the last slot
(`PageTables.EntryAddrNeedsLastSlot`). The comment at the `memset` of the bitmap says that its bits
start as "used", but only the first page of each run of new pages is filled: all of them start as
"used" exactly if every run has one page (`Bitmap.FillingIsComplete`), and otherwise a reserved page
can look free (`Bitmap.ReservedLooksFree`). If the pages for the bitmap run out after the first was
mapped, the allocator's status reads Ok without a bitmap (`Bitmap.BitmapAllocator.Init` has the exact
condition, `Bitmap.OkTooEarly` a memory map). The bootstrap allocator
is said to start past what has been reported as free, but it also skips the first descriptor before
anything has been reported (`UefiMemory.FirstIsSkipped`); `UefiMemory.OnlyCurrentLeft` has the exact
condition. `map_page` does not refuse addresses in slot 511, where it writes to upper tables
(`BootPaging.UpperWrite` says exactly when that destroys the tables, `BootPaging.SelfMapLost` has an
address). A request for address space that wraps around 64 bits is granted (`UefiMemory.PastTheEnd`).
A search for matches ends at a candidate whose position is a multiple of 65536, because its 16 bits read as
the end of the hash chain (`RingDict.SearchIsComplete` has the condition): longer matches can be missed, and
nothing is lost but their benefit.

To check everything: `dafny verify dfyconfig.toml`.

## Model

| member | source | states |
|---|---|---|
| RoundTrip.CompressAndRestore | packages/miniz/src/main/c/miniz.c:1918-2035 | compressing any bytes, of any length and with any settings, with a flush of kind "finish", and decompressing the result into a buffer that is large enough, gives exactly the bytes back |
| RoundTrip.Restore | packages/miniz/src/main/c/miniz.c:2427-2885 | whatever calls produced it, the output of a finished compressor, with anything behind it, decompresses exactly if the output buffer holds the input: then all of the input comes out and exactly the compressor's bytes are used |
| RoundTrip.RestorePieces | packages/miniz/src/main/c/miniz.c:2427-2885 | the same over any number of calls, with the compressed bytes cut into any pieces, and with a flat buffer or a wrapping one of at least 32 KiB that is emptied when full: all of the input comes out, unless the calls run out first with the output full, and then what there is of it is the front of the input; the decompressor is never short of input at the end and refuses nothing |
| RoundTrip.FinishedStream | packages/miniz/src/main/c/miniz.c:1970-1983 | a finished compressor has written whole bytes that start with the bits of a finished stream of valid blocks that unpack to all input ever taken in |
| RoundTrip.RestoreFlushed | packages/miniz/src/main/c/miniz.c:1970-1983 | after any calls of which the last one flushed: a decompressor given exactly the bytes handed over so far, in any pieces, produces all input taken in and asks for more, or has its output full of the front of it; with room for everything it is never the latter |
| RoundTrip.FlushAndRestore | packages/miniz/src/main/c/miniz.c:1918-1983 | compressing any bytes with a sync flush or a full flush, under any settings, and decompressing what has been handed over gives exactly the bytes, with the stream still open |
| RoundTrip.RestoreBehind | packages/miniz/src/main/c/miniz.c:1975-1980 | the bytes behind a full flush alone, without those before it, decompress to the input behind it: no match reaches back over a full flush |
| LzParser.Compressor.Compress | packages/miniz/src/main/c/miniz.c:1918-1983 | one call, any input, any settings, any flush: the input taken in grows by a prefix of the source, by all of it unless the call stops early for its output; the state invariant holds again; a call that flushed leaves a stream that unpacks to everything taken in, with no bit of it held back: the bytes handed over are exactly its bits, and under a sync or full flush they end in 0, 0, 255, 255 |
| LzParser.Compressor.CompressNormal | packages/miniz/src/main/c/miniz.c:1752-1895 | keeps the invariant over the whole run, whatever blocks it closes; it ends with all input taken in and, under a flush, with no lookahead left, or early only because output has to be collected |
| LzParser.Compressor.Parse | packages/miniz/src/main/c/miniz.c:1806-1880 | one round of the lazy state machine keeps: the recorded tokens stand for the input up to the position, less one byte when a match is saved; a saved match is a true match one byte back; the window shrinks from the front only |
| LzParser.Compressor.DecideSaved | packages/miniz/src/main/c/miniz.c:1837-1861 | with a match saved: a longer one turns the saved byte into a literal and goes out at once from 128 bytes on or is saved instead, otherwise the saved match goes out; exactly those tokens, and the bytes covered are accounted for in each case |
| LzParser.Compressor.DecideFresh | packages/miniz/src/main/c/miniz.c:1862-1874 | with nothing saved: a literal, a match at once if that is asked for or it has 128 bytes, or a match saved for the next byte; exactly those tokens |
| LzParser.Compressor.Choose | packages/miniz/src/main/c/miniz.c:1807-1836 | the candidate is none or a true match of the input within window and lookahead, in every mode: what the search gives, with as many probes as the saved match calls for, but none of three bytes from 8192 or further, of up to 5 bytes with the filter, or at the begin of the ring; forced raw blocks have none; run-length mode takes the longest run of the last byte, if that is 3 bytes or more |
| LzParser.Compressor.Advance | packages/miniz/src/main/c/miniz.c:1875-1880 | moving the lookahead keeps the window: the ring still holds everything a distance can reach, and dictionary and lookahead together are all that came behind the last full flush, or 32 KiB of it |
| LzParser.Compressor.Fill | packages/miniz/src/main/c/miniz.c:1761-1802 | both fill loops take in a prefix of the source, as much as the lookahead can hold, and keep ring, mirror, hash chains and saved match; the dictionary gives way no more than it must |
| LzParser.Compressor.FillRolling | packages/miniz/src/main/c/miniz.c:1762-1782 | the loop with the rolling hash keeps the ring and the mirror of its first 257 bytes, and enters each position into the chain of its three bytes |
| LzParser.Compressor.FillFirst | packages/miniz/src/main/c/miniz.c:1783-1801 | so does the loop for the first bytes |
| LzParser.Compressor.RollByte | packages/miniz/src/main/c/miniz.c:1770-1782 | one byte of that loop: it completes the hash of the position two back |
| LzParser.Compressor.FlushBlock | packages/miniz/src/main/c/miniz.c:1256-1385 | closing a block extends the stream by a block that stands for exactly the covered input and starts an empty block there; it is stored only if its bytes are still in the dictionary and that is forced or does not make it longer; under a flush of any kind every bit has been handed over at the end, and a sync or full flush ends in 0, 0, 255, 255 |
| LzParser.Compressor.CloseFull | packages/miniz/src/main/c/miniz.c:1881-1891 | a block is closed exactly when the token buffer is nearly full, or when it is long and does not pay or is to be stored |
| LzParser.Compressor.BlockHeld | packages/miniz/src/main/c/miniz.c:1308-1327 | while the open block is not longer than the dictionary, the ring holds all of its bytes, so that it can be stored instead |
| LzParser.Compressor.Forget | packages/miniz/src/main/c/miniz.c:1975-1980 | a full flush forgets dictionary and hash chains: the dictionary is empty, and blocks from here on must be expandable from an empty history, which the invariant keeps from then on |
| LzParser.AfreshPart | packages/miniz/src/main/c/miniz.c:1724-1750 | each further block, too, can be expanded from the input behind the last full flush alone |
| LzParser.Compressor.NothingSaved | packages/miniz/src/main/c/miniz.c:1970-1972 | when the lookahead is empty no match is saved and everything is covered |
| LzParser.CoverMatch | packages/miniz/src/main/c/miniz.c:1724-1750 | appending a true match to tokens that cover the input up to its position covers the input up to its end |
| LzParser.EmitPart | packages/miniz/src/main/c/miniz.c:1256-1385 | a block whose tokens, or bytes, cover the input from the end of the stream extends what the stream unpacks to, with or without a marker block |
| RingDict.FindMatch | packages/miniz/src/main/c/miniz.c:1481-1523 | from ring, mirror and hash chains, with 16-bit position differences: an improved match has 1 <= dist <= max_dist, agrees with the stream in every byte, and ends at a mismatch or the maximum; and no match is longer from some position on, which is where the window begins, or the last of as many candidates as there are probes, or right behind a candidate at a multiple of 65536, whose entry reads as the end of the chain |
| RingDict.SearchIsComplete | packages/miniz/src/main/c/miniz.c:1481-1523 | so with more probes than there are candidates in the window, and none of those at a multiple of 65536, the search finds a longest match |
| RingDict.Step | packages/miniz/src/main/c/miniz.c:1496-1505 | an entry of the chain leads to the next candidate in the window, and no match of three bytes starts between; or there is none left in the window, also when the entry is of a position 65536 or more back |
| HashChain.Roll | packages/miniz/src/main/c/miniz.c:1762-1782 | the hash that rolls on by five bits is the hash of the last three bytes, whatever came before them |
| HashChain.ChainedMore | packages/miniz/src/main/c/miniz.c:1777-1779 | entering a position keeps: from each position in reach of the ring, the chain leads to the last one before it with the same hash, and the head of each hash to the last of all |
| RingDict.ProbeSlot | packages/miniz/src/main/c/miniz.c:1496-1502 | a 16-bit difference within the window names the slot that holds that position |
| RingDict.Compare | packages/miniz/src/main/c/miniz.c:1511-1521 | the comparison across the end of the ring finds the longest agreement |
| RingDict.RepeatLength | packages/miniz/src/main/c/miniz.c:1813-1827 | the run-length mode finds how often the last byte repeats |
| RingDict.WriteKeepsRing | packages/miniz/src/main/c/miniz.c:1772-1775 | one more byte into ring and mirror overwrites only the oldest position |
| TokenBuffer.LzCodeBuffer.RecordLiteral | packages/miniz/src/main/c/miniz.c:1711-1722 | records one literal: the buffer packs the old tokens and it, the symbol counts follow |
| TokenBuffer.LzCodeBuffer.RecordMatch | packages/miniz/src/main/c/miniz.c:1724-1750 | records one match: three bytes, a flag bit, a new flag byte after the eighth token, and both symbol counts |
| TokenBuffer.RecordNext | packages/miniz/src/main/c/miniz.c:1711-1750 | shifting the flag byte and appending the payload keeps the meaning of the buffer, whatever the unused flag bits hold |
| TokenBuffer.LzCodeBuffer.Finish | packages/miniz/src/main/c/miniz.c:1271-1272 | after the last shift, or the removal of an empty flag byte, the buffer is exactly the packed tokens |
| TokenBuffer.FinishGroup | packages/miniz/src/main/c/miniz.c:1271-1272 | stale bits of the last flag byte never show |
| TokenBuffer.PackAppend | packages/miniz/src/main/c/miniz.c:1711-1750 | packing whole groups first is packing all |
| TokenBuffer.TokensFit | packages/miniz/src/main/c/miniz.c:1711-1750 | each token takes more than a byte, so that the 16-bit counters cannot overflow |
| TokenBuffer.ExpandSize | packages/miniz/src/main/c/miniz.c:1711-1726 | the byte total kept beside the buffer is the size of what the tokens stand for |
| Tokens.CopyAt | packages/miniz/src/main/c/miniz.c:2777-2839 | each byte of a copied match is the byte one distance earlier, overlap included |
| Tokens.CopyUnique | packages/miniz/src/main/c/miniz.c:2777-2839 | and that determines the copy |
| Tokens.ExpandAppend | packages/miniz/src/main/c/miniz.c:1711-1750 | expanding tokens one group after another is expanding all of them |
| CompressLz.CompressLzCodes | packages/miniz/src/main/c/miniz.c:1197-1242 | reading the packed buffer back token by token sends exactly the code, extra bits and end-of-block symbol of each token, and reports success exactly if the output did not reach its end |
| CompressLz.GroupRead | packages/miniz/src/main/c/miniz.c:1203-1237 | a flag byte with the mark above it and the bytes behind it read as the tokens of the group |
| CompressLz.FlagBitMarked | packages/miniz/src/main/c/miniz.c:1205-1207 | the mark above the flag byte does not disturb the flags |
| CompressLz.MarkAt | packages/miniz/src/main/c/miniz.c:1203-1206 | the mark arrives at the lowest bit exactly after eight tokens |
| LzSymbols.LenTables | packages/miniz/src/main/c/miniz.c:684-705 | length symbol, base and extra bits of encoder and decoder tables agree for all 256 lengths |
| LzSymbols.DistTables | packages/miniz/src/main/c/miniz.c:706-748 | the same for all 32768 distances |
| LzSymbols.LengthValues | packages/miniz/src/main/c/miniz.c:2439-2440 | the lengths start at 3, each symbol begins where the extra bits of the one before it end, the number of extra bits grows with every fourth symbol, and the last symbol is 258 alone (section 3.2.5 of RFC 1951) |
| LzSymbols.DistValues | packages/miniz/src/main/c/miniz.c:2441-2442 | the distances start at 1, likewise, extra bits grow with every second symbol, and the last symbol reaches the size of the dictionary |
| BlockCode.ItemRoundTrip | packages/miniz/src/main/c/miniz.c:1211-1232 | symbols and extra bits of a token give the token back |
| BlockCode.CountedIsCodable | packages/miniz/src/main/c/miniz.c:871-922 | if every counted symbol has a code, every token can be sent |
| BitWriter.Writer.PutBits | packages/miniz/src/main/c/miniz.c:924-940 | appends the low bits of the value, least significant first, whatever was in the buffer; bytes past the end are dropped but counted |
| BitWriter.Writer.Align | packages/miniz/src/main/c/miniz.c:1339-1344 | fills up to a byte boundary with zeros |
| BitWriter.Writer.Rollback | packages/miniz/src/main/c/miniz.c:1313-1333 | back to the state saved before a block that did not pay off |
| BitWriter.Writer.Complete | packages/miniz/src/main/c/miniz.c:924-940 | if the end was not reached the buffer holds every bit sent |
| BitWriter.PutWord | packages/miniz/src/main/c/miniz.c:924-934 | the 32-bit buffer never overflows: or-ing in at most 16 bits above fewer than 8 adds them |
| RadixSort.RadixSortSyms | packages/miniz/src/main/c/miniz.c:753-784 | a stable sort: ascending keys, the same elements, equal keys in their old order, also when the second pass is skipped |
| RadixSort.PassEffect | packages/miniz/src/main/c/miniz.c:766-782 | one counting pass sorts by its digit and keeps the order within a digit; after the second pass the whole keys are sorted |
| RadixSort.OneByteKeys | packages/miniz/src/main/c/miniz.c:764-765 | when all high bytes are zero one pass sorts by the whole key |
| MinRedundancy.CalculateMinimumRedundancy | packages/miniz/src/main/c/miniz.c:787-840 | in place, for ascending frequencies with a 16-bit sum: the lengths have minimal weighted total over all codes that satisfy Kraft's inequality, use up the code space exactly, do not increase, lie in 1..22, and are long only for symbols that are rare by a Fibonacci bound; symbols do not move |
| MinRedundancy.BuildTree | packages/miniz/src/main/c/miniz.c:797-816 | first phase: the two-queue merge builds parent links of a Huffman tree in the array it reads from |
| MinRedundancy.ParentsToDepths | packages/miniz/src/main/c/miniz.c:817-819 | second phase: parent links become depths |
| MinRedundancy.DepthsToLengths | packages/miniz/src/main/c/miniz.c:820-839 | third phase: each leaf gets one more than the depth of its parent |
| MinRedundancy.TreeLengths | packages/miniz/src/main/c/miniz.c:787-840 | lengths read off such a tree are optimal, complete, descending and at most 22 |
| TreeCost.GreedyIsOptimal | packages/miniz/src/main/c/miniz.c:797-816 | the total weight of the merged nodes is a lower bound for every code |
| TreeCost.TreeCostIsWeights | packages/miniz/src/main/c/miniz.c:817-839 | the weighted total of the lengths is the total weight of the inner nodes |
| TreeCost.TreeKraft | packages/miniz/src/main/c/miniz.c:817-839 | the lengths of a binary tree have Kraft sum exactly 1 |
| TreeCost.Shallow | packages/miniz/src/main/c/miniz.c:896-897 | frequencies with a 16-bit sum give a tree less than 22 deep, so that the array of 33 counts suffices |
| TreeCost.LeafGrowth | packages/miniz/src/main/c/miniz.c:797-816 | a leaf under a parent at depth d weighs at most the total over the d-th Fibonacci number |
| HuffmanTree.DepthsDescend | packages/miniz/src/main/c/miniz.c:817-839 | inner nodes made later are not deeper |
| HuffmanTree.MergesFit | packages/miniz/src/main/c/miniz.c:809-815 | no merged weight exceeds the sum of all frequencies, hence 16 bits |
| LengthLimit.EnforceMaxCodeSize | packages/miniz/src/main/c/miniz.c:847-869 | ends with Kraft sum exactly 1 within the limit and as many codes as before; the result is exactly the clamped counts after as many trades as the excess, each splitting a longest code below the limit; codes that met the limit are left alone |
| LengthLimit.TradeOne | packages/miniz/src/main/c/miniz.c:857-868 | one round takes a code off the limit and splits a longest shorter one: the scaled Kraft total falls by exactly 1 and the number of codes stays |
| RankLengths.TradeMoves | packages/miniz/src/main/c/miniz.c:857-868 | what a trade does to the symbols: of all symbols from the rarest up, the first with a shorter code and the one before it now share the place of that code, and no other symbol changes |
| RankLengths.TradesMove | packages/miniz/src/main/c/miniz.c:857-868 | over any number of trades: the symbols from a frontier on keep their optimal lengths, and to move it that far took a trade for each unit of code space of the symbols before it |
| RankLengths.CostRises | packages/miniz/src/main/c/miniz.c:847-869 | a limited code costs at most, beyond the optimal one, the count of each symbol that gave way times the bits it gave |
| RankLengths.PenaltyBound | packages/miniz/src/main/c/miniz.c:847-869 | that is at most one bit for each symbol sent, because symbols deep in the tree are rare; for alphabets of at most 32 symbols it is at most a quarter of a bit |
| RankLengths.LimitedRanks | packages/miniz/src/main/c/miniz.c:847-869 | from the counts alone: the lengths that the limited counts hand out cost at most one bit (a quarter) more for each symbol sent than the optimal lengths |
| LengthLimit.ClampExcess | packages/miniz/src/main/c/miniz.c:853-857 | after moving long codes to the limit the excess is less than the number of codes moved |
| LengthLimit.ExcessMeansShorter | packages/miniz/src/main/c/miniz.c:860-866 | while there is an excess a shorter code exists that can be split |
| LengthLimit.KraftTotal | packages/miniz/src/main/c/miniz.c:855-856 | the total fits 32 bits and is the Kraft sum scaled by 2^max |
| HuffTable.OptimizeHuffmanTable | packages/miniz/src/main/c/miniz.c:871-922 | every symbol with a count has a length in 1..limit and no other has one; more frequent symbols do not have longer codes; two or more used symbols fill the code space exactly; the stored codes are the canonical ones, reversed; with the limit of 15 bits no code with a length for every symbol, however long, saves more than one bit for each symbol sent (a quarter for up to 32 symbols) |
| HuffTable.SymbolsFrugal | packages/miniz/src/main/c/miniz.c:903-905 | the bound carries over from sorted symbols to the alphabet |
| HuffTable.AssignSizes | packages/miniz/src/main/c/miniz.c:903-905 | lengths are handed out from the most frequent symbol down, as many of each as counted |
| HuffTable.AssignCodes | packages/miniz/src/main/c/miniz.c:908-921 | next_code numbering and bit reversal give every used symbol its canonical code |
| HuffTable.LengthsOrdered | packages/miniz/src/main/c/miniz.c:903-905 | lengths handed out along the sorted symbols never favour a rarer one |
| HuffTable.ExactIsFull | packages/miniz/src/main/c/miniz.c:908-910 | counts with Kraft sum exactly 1 fill the canonical code space |
| Canonical.PrefixFree | packages/miniz/src/main/c/miniz.c:908-921 | no canonical code is the start of another one, in the order of transmission |
| Canonical.Decodable | packages/miniz/src/main/c/miniz.c:2584-2642 | when the code space is full every 15 bits start with some code |
| Canonical.CodeRange | packages/miniz/src/main/c/miniz.c:908-917 | every code fits its length |
| Canonical.CodeIsSpace | packages/miniz/src/main/c/miniz.c:908-921 | what the codes are: read as a fraction, each code is the code space of all symbols with shorter codes and of those before it with the same length (section 3.2.2 of RFC 1951), and its greatest bit is sent first |
| DecodeTable.BuildTables | packages/miniz/src/main/c/miniz.c:2584-2642 | lookup table and overflow tree are built exactly for full code spaces and for at most one used symbol, and then send every bit string that starts with a code to that symbol and its length |
| DecodeTable.TrieDecodes | packages/miniz/src/main/c/miniz.c:2393-2425 | lookup and walk through the tree find the symbol whose code starts the bits |
| DecodeTable.InsertLong | packages/miniz/src/main/c/miniz.c:2621-2641 | a code of more than ten bits goes into the tree, with new nodes where needed, and disturbs no other code |
| DecodeTable.PaintLookup | packages/miniz/src/main/c/miniz.c:2611-2620 | a short code takes exactly the lookup slots whose index starts with it |
| DecodeTable.FullTreeRoom | packages/miniz/src/main/c/miniz.c:2584-2642 | the tree array of twice the number of symbols always suffices |
| HuffDecode.DecodeSymbol | packages/miniz/src/main/c/miniz.c:2393-2425 | returns the next symbol exactly if all bits of its code have arrived and consumes exactly those; otherwise it has read all input and consumed nothing |
| HuffDecode.Fill | packages/miniz/src/main/c/miniz.c:2358-2386 | reads byte by byte until a code is complete and no byte more |
| HuffDecode.AcceptsWhole | packages/miniz/src/main/c/miniz.c:2365-2381 | the test on a partly filled buffer, with zeros above it, accepts exactly when the whole code is there |
| HuffDecode.FullReadable | packages/miniz/src/main/c/miniz.c:2393-2425 | with a full code any input goes on with some symbol |
| BitReader.Reader.GetBits | packages/miniz/src/main/c/miniz.c:2326-2356 | gets the next n bits as a number if they have arrived, and otherwise keeps what there is |
| BitReader.Reader.Finish | packages/miniz/src/main/c/miniz.c:2844-2853 | whole bytes read ahead are handed back at the end of a stream |
| BitReader.Reader.PutBack | packages/miniz/src/main/c/miniz.c:2871-2884 | at every return with full output, as many whole bytes as this call supplied are handed back |
| BitReader.Reader.Feed | packages/miniz/src/main/c/miniz.c:2427-2478 | another call with more input continues the bits |
| Inflate.Inflater.Run | packages/miniz/src/main/c/miniz.c:2672-2839 | one call inside a compressed block, from any state a call can leave: done exactly at the end of the block with all tokens expanded and the input position right behind it; out of input only when the block's bits have not all arrived; out of output only at the end of the buffer with a proper prefix written; failed only in a flat buffer for a match that reaches too far; what is still wanted is a rest of what was wanted |
| Inflate.Inflater.PairPart | packages/miniz/src/main/c/miniz.c:2688-2753 | the fast path, two literals at a time, keeps the same invariant as the slow one |
| Inflate.Inflater.SymbolPart | packages/miniz/src/main/c/miniz.c:2677-2687 | so does the slow path, also when it is interrupted and called again |
| Inflate.Inflater.LengthExtraPart | packages/miniz/src/main/c/miniz.c:2758-2765 | extra bits of a length, across an interruption |
| Inflate.Inflater.DistSymbolPart | packages/miniz/src/main/c/miniz.c:2767-2769 | the distance symbol, across an interruption |
| Inflate.Inflater.MatchPart | packages/miniz/src/main/c/miniz.c:2777-2796 | checks the distance in flat buffers and chooses the way to copy |
| Inflate.Inflater.CopySlowly | packages/miniz/src/main/c/miniz.c:2785-2796 | the masked byte-by-byte copy, interrupted wherever the output is full |
| InflateCalls.Drive | packages/miniz/src/main/c/miniz.c:2427-2478 | any sequence of calls on any stream, with any pieces of input, flat buffers that grow or a wrapping one that is emptied in between, interrupted anywhere: it is done only with all output of a stream that ends well and exactly its bytes used; it fails only at a block that is to be refused, with all output before it; if the calls run out first, either all input has been read and the stream is longer, or the output is full and not all of it; what is written is always the front of the output |
| InflateCalls.NextCall | packages/miniz/src/main/c/miniz.c:2427-2478 | what a caller does between two calls, more input or room in the output, restores the invariant wherever the decompressor stopped, as long as the input keeps to the stream |
| OutputWindow.Window.MakeRoom | packages/miniz/src/main/c/miniz.c:2427-2478 | a flat buffer goes on where it stopped, a full wrapping one starts over; either way what was written stays within reach |
| OutputWindow.Window.CopyRun | packages/miniz/src/main/c/miniz.c:2824-2839 | copying three bytes at a time, and the rest, produces what byte-by-byte copying does, for every distance, overlapping or around the end of the buffer |
| OutputWindow.Window.CopyOne | packages/miniz/src/main/c/miniz.c:2783-2794 | one byte from one distance back, wrapped or not |
| InflateBlock.AfterSymbol | packages/miniz/src/main/c/miniz.c:2755-2775 | what a decoded symbol leaves to be read and written |
| InflateStream.Decompressor.Decompress | packages/miniz/src/main/c/miniz.c:2427-2885 | one call, from any state a call can leave, with any part of the input and any room: done exactly if the stream ends well and all of it has arrived and fitted, with its bytes used and those behind it handed back; failed at the reserved block type, a wrong stored length, codes that are badly described or not acceptable, or a match before the start of the output, with all output before that; short of input only if the stream needs more than there is, and then every block that has arrived has been written; short of room only with the buffer full and a proper part of the output in it |
| InflateStream.Decompressor.ReadHead | packages/miniz/src/main/c/miniz.c:2494-2497 | the first three bits of a block, if they have arrived |
| InflateStream.Decompressor.OpenBlock | packages/miniz/src/main/c/miniz.c:2497-2560 | the four block types: a stored block after the rest of the byte, fixed codes, described codes, or a refusal |
| InflateStream.Decompressor.NextBlock | packages/miniz/src/main/c/miniz.c:2842-2853 | behind a block: on to the next one, or to the end of the stream, where whole bytes read ahead are handed back and no bit is left in the buffer, as the source asserts |
| StreamBlocks.BlockFollows | packages/miniz/src/main/c/miniz.c:2492-2842 | where each block of a stream stands, that it fits the output before it, and what it adds to it |
| StreamBlocks.HaveArrived | packages/miniz/src/main/c/miniz.c:2492-2842 | the blocks that have arrived are those before the one in which the input ends |
| StoredReader.ByteReader.Run | packages/miniz/src/main/c/miniz.c:2497-2536 | a stored block over any number of calls: refused exactly if the second length is not the inverse of the first; otherwise bytes still in the bit buffer first, then runs from the input; interrupted at each byte of the lengths, for room with a byte in hand, and for input or room before each run |
| StoredReader.ByteReader.CopyRun | packages/miniz/src/main/c/miniz.c:2523-2535 | a run is as long as input, room and block allow, and copies the bytes of the block |
| InflateStream.Decompressor.StartBody | packages/miniz/src/main/c/miniz.c:2584-2642 | fixed or described codes end up as tables that decode them; refused exactly if one of the two codes is neither full nor of at most one symbol |
| InflateStream.Decompressor.BodyPart | packages/miniz/src/main/c/miniz.c:2672-2839 | the symbols of a block expand behind the output so far, up to a match that reaches too far |
| InflateStream.Decompressor.SoFar | packages/miniz/src/main/c/miniz.c:2427-2885 | in every state, what has been written is the front of the output of the stream |
| InflateStream.Decompressor.Catches | packages/miniz/src/main/c/miniz.c:2427-2885 | input can only be missing inside a block; what the blocks before it stand for has been written |
| CodeLengths.PackCodeSizes | packages/miniz/src/main/c/miniz.c:1008-1050 | whatever the lengths, the repeat operations written expand to exactly them, and each symbol is counted as often as it is used; they are run by run: zeros by 138, other lengths once and then by 6, a rest from three on in one operation; runs cross the boundary between the two codes |
| CodeLengths.PackOne | packages/miniz/src/main/c/miniz.c:1016-1042 | one round keeps: operations written plus pending zeros or repeats are the lengths seen |
| CodeLengths.TrailIs | packages/miniz/src/main/c/miniz.c:1016-1042 | which lengths a run takes in: the last ones, as far back as they are equal |
| CodeLengths.UnpackOp | packages/miniz/src/main/c/miniz.c:2649-2662 | the decoder's rule appends what the operation stands for: one length for 0 to 15, the last length 3 times and as many more as the extra bits say for 16, zeros from 3 on for 17 and from 11 on for 18; it fails exactly for 16 with nothing before it |
| BlockHeader.WriteHeader | packages/miniz/src/main/c/miniz.c:1052-1075 | the block header: counts, swizzled 3-bit lengths without trailing zeros, operations with extra bits; the counts are the first fields of 5, 5 and 4 bits, and the three-bit fields behind them are those of the symbols 16, 17, 18, 0, 8, 7 and so on, written out |
| BlockHeader.SentBegins | packages/miniz/src/main/c/miniz.c:1052-1065 | every header, accepted or not, begins with those fields in that order |
| BlockHeader.OpsOnWire | packages/miniz/src/main/c/miniz.c:1067-1074 | a length is its symbol, a repeat is 16 and the number less 3 in two bits, zeros are 17 and the number less 3 in three bits or 18 and the number less 11 in seven (section 3.2.7 of RFC 1951) |
| HeaderReader.CodeReader.Run | packages/miniz/src/main/c/miniz.c:2560-2670 | for any three counts, lengths of the length code and operations, over any number of calls: refused exactly if the length code is not acceptable, the first operation repeats nothing, or the last one overshoots; otherwise, once all of it has arrived, the two length vectors the operations stand for, with the input right behind the header |
| HeaderReader.CodeReader.CountPart | packages/miniz/src/main/c/miniz.c:2563-2567 | the three counts, interrupted before each |
| HeaderReader.CodeReader.ClPart | packages/miniz/src/main/c/miniz.c:2568-2602 | the lengths of the length code into their places, interrupted before each; then its table; when the input has them, the three-bit fields behind the counts are those of the symbols 16, 17, 18, 0, 8, 7, 9, 6, 10, 5, 11, 4, 12, 3, 13, 2, 14, 1, 15, written out number by number, and fields not sent are 0 |
| HeaderReader.CodeReader.InputBegins | packages/miniz/src/main/c/miniz.c:2563-2578 | where the counts and those fields stand in the input, from the bits that have arrived |
| HeaderReader.CodeReader.SymbolPart | packages/miniz/src/main/c/miniz.c:2648-2657 | a symbol of the length code, interrupted inside its code |
| KnownInput.ReadKnown | packages/miniz/src/main/c/miniz.c:2326-2356 | a number that the stream says comes next is read as that number if it has arrived, and otherwise nothing is consumed and the input ends inside it |
| BlockHeader.AcceptedHeader | packages/miniz/src/main/c/miniz.c:2560-2670 | the headers that are accepted are the well-formed ones, and those are read to their end |
| HeaderReader.CodeReader.Carry | packages/miniz/src/main/c/miniz.c:2645-2667 | one operation is carried out; fails exactly if it is the first one with nothing to repeat or the last one overshooting the number of lengths; with all lengths there they go to the two codes |
| BlockHeader.SwizzleInjective | packages/miniz/src/main/c/miniz.c:988 | the transmission order of the length code names each length once |
| BlockTables.StaticFull | packages/miniz/src/main/c/miniz.c:1077-1097 | the two fixed codes fill their code space, also as the decoder sees them |
| BlockTables.FixedCodes | packages/miniz/src/main/c/miniz.c:2543-2553 | lengths and codes of the fixed codes for each range of symbols, as in the table in section 3.2.6 of RFC 1951 |
| BlockTables.BuiltIsAcceptable | packages/miniz/src/main/c/miniz.c:2589-2602 | the decoder accepts every code the encoder builds |
| BlockTables.TrailingBlock | packages/miniz/src/main/c/miniz.c:1001-1006 | leaving out trailing unused symbols changes no code |
| BlockTables.CountsSum | packages/miniz/src/main/c/miniz.c:1711-1750 | the counts of a block add up to its tokens, so that their sum fits 16 bits |
| CompressBlock.StartDynamicBlock | packages/miniz/src/main/c/miniz.c:990-1075 | builds both codes for the counted symbols and sends a header that describes them, without unused symbols at the end; every token of the block can be sent with them |
| CompressBlock.StartStaticBlock | packages/miniz/src/main/c/miniz.c:1077-1097 | sets up the fixed codes and sends the block type |
| CompressBlock.Compress | packages/miniz/src/main/c/miniz.c:1245-1252 | a block of either kind: exactly the bits that stand for its tokens |
| CompressBlock.CountCodes | packages/miniz/src/main/c/miniz.c:1001-1006 | trailing unused symbols are not described, and no used one is left out |
| DeflateStream.UnpackNext | packages/miniz/src/main/c/miniz.c:1256-1385 | a further block appends its output to what came before |
| WireFormat.BlockHeads | packages/miniz/src/main/c/miniz.c:2494-2560 | a block begins with the bit that marks the last one and two bits of type, low one first: 0 for stored, 1 for fixed codes, 2 for its own |
| WireFormat.StoredOnWire | packages/miniz/src/main/c/miniz.c:1315-1327 | a stored block: zeros up to a byte, its length in two bytes, low one first, the same inverted, and its bytes |
| WireFormat.KnownStream | packages/miniz/src/main/c/miniz.c:1197-1242 | one stream in full: the letter a and 20 more of it are the four bytes 75, 196, 6, 0 |
| FlushBlock.BlockSink.Flush | packages/miniz/src/main/c/miniz.c:1256-1385 | a compressed, or stored, or retried block and the end-of-stream padding or marker: the bytes delivered, and fewer than eight bits that wait, are the bits of all blocks so far; under a flush of any kind no bit waits, and a sync or full flush ends in 0, 0, 255, 255; the output never reaches the end of its buffer, as the source asserts |
| FlushBlock.BlockSink.Close | packages/miniz/src/main/c/miniz.c:1336-1385 | what a flush puts behind the block, with the same promise about the bytes delivered |
| FlushBlock.BlockSink.PutPart | packages/miniz/src/main/c/miniz.c:1299-1335 | the block that expands is rolled back and stored, a dynamic block that failed is rolled back and sent with the fixed code; a block that can be stored is compressed only if that takes fewer bytes, and stored, unless that is forced, only if the compressor's codes would save two bytes at most; fixed codes are used when forced or for less than 48 bytes, and only then if the block could be stored |
| FlushBlock.BlockSink.PutStored | packages/miniz/src/main/c/miniz.c:1315-1327 | length, inverted length and the bytes from the ring, on a byte boundary |
| FlushBlock.DynamicFits | packages/miniz/src/main/c/miniz.c:1329-1370 | a block of the token buffer with codes as the encoder builds them always fits the output buffer with its header, which is why the assertion holds |
| BlockCost.BodyCost | packages/miniz/src/main/c/miniz.c:1197-1242 | the bits of a block are its symbol counts weighed with the code lengths, and the extra bits |
| BlockCost.StaticCompetes | packages/miniz/src/main/c/miniz.c:1077-1097 | the fixed codes satisfy Kraft's inequality, so that a built code can be held against them |
| BlockCost.StaticAndMore | packages/miniz/src/main/c/miniz.c:1077-1097 | under the fixed code, and one more bit for each token and a quarter for each match, a bit of the token buffer costs at most 1.29 bits |
| BlockCost.BuiltIsShort | packages/miniz/src/main/c/miniz.c:990-1075 | so a block with codes as the encoder builds them takes at most 1.29 bits for each bit of the token buffer, and its end |
| FlushBlock.StaticFits | packages/miniz/src/main/c/miniz.c:1329-1335 | a block of the token buffer with the fixed code always fits the output buffer |
| PageTables.EntryReachesSlot | include/packages/efi/paging.h:96-99 | through the self-map, PT_ENTRY(v) reaches the physical slot of v in its lowest table, if all upper tables are present, and nothing otherwise; for any 64-bit v |
| PageTables.UpperEntries | include/packages/efi/paging.h:107-131 | PT_ENTRY two, three and four times reaches the entries of the upper tables, up to the top one |
| PageTables.ComputeEntries | include/packages/efi/paging.h:107-131 | PT_COMPUTE_ENTRIES, for every memory and every self-mapped root at once |
| PageTables.EntryTables | include/packages/efi/paging.h:96-99 | the walk of an entry's address is the walk of the address itself, one level behind |
| PageTables.SamePage | include/packages/efi/paging.h:67-80 | two addresses lie in the same page exactly if all four indices agree |
| PageTables.SlotsApart | efi/src/main/cpp/virtual.cpp:466-494 | different slots of tables have different addresses |
| PageTables.StepByNumbers | efi/src/main/cpp/virtual.cpp:466-494 | a step of the walk in numbers: entries of eight bytes, bit 0 for present, bits 12 to 51 for the next table |
| PageTables.IndicesByNumbers | include/packages/efi/paging.h:67-103 | the indices and the self-map address in numbers |
| PageTables.EntryAddrNeedsLastSlot | include/kernel/paging.h:352-356 | entryAddr lands in the self-map of an upper-half address exactly if the self-map is in slot 511 |
| BootPaging.PageTableBuilder.MapPage | efi/src/main/cpp/virtual.cpp:454-519 | for any address: succeeds exactly if an allocation succeeds for every missing table; then outside slot 511 every address in the page has its frame, with exactly the attributes asked for, or is not mapped if they lack the present bit, and no other page changed; inside slot 511 the entry goes to an upper table, and the tables are kept exactly if it leads where its slot led; on failure nothing is mapped differently |
| BootPaging.EntryShown | efi/src/main/cpp/virtual.cpp:496-501 | what the walk in memory finds of a page that was given an address and attributes: the frame, the place in it, and the attributes, bit for bit |
| BootPaging.UpperWrite | efi/src/main/cpp/virtual.cpp:496-501 | an entry written to an upper table keeps the tables exactly if it leads where the slot led; otherwise memory no longer holds them, whatever mapping is assumed |
| BootPaging.SelfMapLost | efi/src/main/cpp/virtual.cpp:496-501 | an address, with no table missing, whose mapping overwrites the self-map |
| BootPaging.PageTableBuilder.FindTable | efi/src/main/cpp/virtual.cpp:466-494 | for any address, finds or makes the three tables on its way, through the self-map too, using one allocation for each missing one; exactly the missing ones are added |
| BootPaging.MissingCount | efi/src/main/cpp/virtual.cpp:466-494 | the tables missing on a way are different ones, so that their number is the number of allocations |
| BootPaging.PageTableBuilder.Descend | efi/src/main/cpp/virtual.cpp:468-493 | a missing table is allocated, cleared and linked, present and writable, and nothing else is written; the tables stay a tree |
| BootPaging.PageTableBuilder.MapPages | efi/src/main/cpp/virtual.cpp:521-540 | a run of any pages, up to the first failure; the tables are kept, and map what was asked for, up to the first page whose entry destroys them, which can only be one in slot 511; without such a page it succeeds exactly if an allocation succeeds for every table missing on the way to any of the pages, each counted once |
| BootPaging.PageTableBuilder.MapNewPages | efi/src/main/cpp/virtual.cpp:542-556 | new frames for a run of any pages, with the same promise; without a harmful page it succeeds exactly if one more allocation than that does |
| BootPaging.PageTableBuilder.CreatePageTables | efi/src/main/cpp/virtual.cpp:558-585 | an empty address space mapped into itself: the last slot of the top table holds its own address, present and writable, all others 0 |
| BootPaging.PageTableBuilder.StoreEntry | include/kernel/paging.h:378-387 | for any address whose tables are there, the kernel's store through the self-map has the effect of MapPage's last write |
| BootPaging.PageTableBuilder.EntrySeen | include/packages/efi/paging.h:96-103 | for any address, where the self-map shows an entry is where MapPage writes it, and that is the entry the page was given last |
| BootPaging.TranslationIsMapping | efi/src/main/cpp/virtual.cpp:454-519 | the four-level walk of any address outside slot 511 finds the entry its page was given last |
| BootPaging.WalkFollowsTree | efi/src/main/cpp/virtual.cpp:466-494 | the walk of any address, at every level, is the path in the tree of tables, with the self-map leading back to the top |
| BootPaging.BuiltAdd | efi/src/main/cpp/virtual.cpp:474-489 | linking a cleared table changes no translation |
| BootPaging.BuiltSet | efi/src/main/cpp/virtual.cpp:496-501 | writing a lowest entry maps that page only |
| BootPaging.OnlyThatPage | efi/src/main/cpp/virtual.cpp:454-519 | after mapping a page its translation is the new entry and every other translation is unchanged |
| BootPaging.SelfSlotIsUpper | efi/src/main/cpp/virtual.cpp:576-581 | the last table of a walk is a lowest table exactly if the walk does not start in slot 511 |
| BootPaging.RunMaps | efi/src/main/cpp/virtual.cpp:527-537 | each page of a run outside slot 511 is mapped to its frame, the last one winning if addresses wrap onto the same page |
| BootPaging.RunKeeps | efi/src/main/cpp/virtual.cpp:527-537 | pages outside the run keep their entries |
| BootPaging.PagesFollow | efi/src/main/cpp/virtual.cpp:535-536 | each page of a run, and each of its frames, is 4096 bytes behind the one before |
| BootPaging.RunShows | efi/src/main/cpp/virtual.cpp:521-540 | what the walk in memory finds of any page of a run: its frame and the attributes asked for, unless a later page of the run wraps onto it |
| UefiMemory.UefiMemoryBootstrapper.AllocatePages | packages/efi_shim/src/main/cpp/uefi_shim.cpp:75-96 | exactly the front of the first descriptor of conventional memory behind the current one that has pages, as much as asked for or as it has; it was free and is free no more, nothing else changes; it fails exactly if no conventional descriptor behind the current one has pages |
| UefiMemory.UefiMemoryBootstrapper.MoveNext | packages/efi_shim/src/main/cpp/uefi_shim.cpp:98-110 | reports all of the next conventional descriptor with pages once, and says which; when it says there is none, nothing free is left |
| UefiMemory.UefiMemoryBootstrapper.Take | packages/efi_shim/src/main/cpp/uefi_shim.cpp:86-91 | taking a run keeps: runs handed out and runs still free are disjoint and make up the pages free at first |
| UefiMemory.UefiMemoryBootstrapper.ReserveVirtualMemory | packages/efi_shim/src/main/cpp/uefi_shim.cpp:57-68 | address space is handed out upwards, exactly if the 64-bit sum does not exceed its end; the range handed out ends within the address space exactly if that sum does not wrap |
| UefiMemory.PastTheEnd | packages/efi_shim/src/main/cpp/uefi_shim.cpp:60-65 | from every page there is a request that wraps: it is granted although its range goes past the end |
| UefiMemory.UefiMemoryBootstrapper.constructor | include/packages/efi_shim/uefi_shim.h:115-127 | the iterator, made after the index, leaves it at 0 |
| UefiMemory.CutConserves | packages/efi_shim/src/main/cpp/uefi_shim.cpp:75-110 | conservation over one operation of either kind, hence over every interleaving |
| UefiMemory.OnlyCurrentLeft | packages/efi_shim/src/main/cpp/uefi_shim.cpp:79-82 | the allocator fails while pages are left exactly if all of them belong to the descriptor at the current index |
| UefiMemory.FirstIsSkipped | packages/efi_shim/src/main/cpp/uefi_shim.cpp:79-82 | memory maps on which it does, with five free pages, before anything has been reported |
| UefiMemory.CalcMemSize | packages/efi_shim/src/main/cpp/uefi_shim.cpp:128-142 | the end of the last free descriptor: no free page lies beyond it, and it is attained |
| UefiMemory.OnlyConventional | packages/efi_shim/src/main/cpp/uefi_shim.cpp:171-180 | the pages on offer are those of conventional memory and no others |
| Bitmap.BitmapAllocator.Init | kernel/src/main/cpp/paging.cpp:100-173 | it completes exactly if address space can be reserved for the least number of pages whose bits reach the memory size, there are that many, and their tables exist; then, whatever the new pages held, every page still free has a clear bit, every other bit is as the filling left it, nothing free is left in the memory map, and the lowest free page is known; the status reads Ok without that exactly if address space can be reserved, there are some pages but not enough, and all of them can be mapped |
| Bitmap.BitmapAllocator.MarkReported | kernel/src/main/cpp/paging.cpp:144-172 | over all reported ranges: exactly their bits are cleared, all within the bitmap; the lowest free page is the least range start |
| Bitmap.BitmapAllocator.MarkFree | kernel/src/main/cpp/paging.cpp:145-171 | head mask, whole bytes and tail mask clear exactly the bits of one range |
| Bitmap.BitmapAllocator.GetPages | kernel/src/main/cpp/paging.cpp:119-141 | takes exactly the runs that the memory map gives from the current index on, and fills only the first page of each; it succeeds exactly if there are enough and all can be mapped, and the status reads Ok exactly if there is any page and all that are to be had can be mapped |
| Bitmap.OkTooEarly | kernel/src/main/cpp/paging.cpp:129-132 | a memory map with one of the two pages that the bitmap needs |
| Bitmap.MakeSetBitsMask | kernel/src/main/cpp/paging.cpp:80-94 | the mask of the pages that share a byte, and the page behind them |
| Bitmap.ClearInByte | kernel/src/main/cpp/paging.cpp:154-158 | and-ing the inverted mask clears those pages only |
| Bitmap.BitFromBelow | kernel/src/main/cpp/paging.cpp:80-94 | the pages of a byte stand from its lowest bit up |
| Bitmap.BitmapSuffices | kernel/src/main/cpp/paging.cpp:104-108 | the bitmap has a bit for every page below the end of memory |
| Bitmap.PagesNeeded | kernel/src/main/cpp/paging.cpp:104-107 | the least number of pages with a bit for each whole page of memory, 32768 bits in each: as many suffice and one less does not |
| Bitmap.LeastIsOne | kernel/src/main/cpp/paging.cpp:104-107 | that determines the number |
| Bitmap.FillingIsComplete | kernel/src/main/cpp/paging.cpp:119-141 | the new bitmap is all ones whatever its pages held if and only if each free descriptor behind the current index that is asked for more than one page has just one |
| Bitmap.SingleRuns | kernel/src/main/cpp/paging.cpp:119-141 | that condition on the memory map says exactly that every run taken is a single page |
| Bitmap.BitsTellFree | kernel/src/main/cpp/paging.cpp:135-137 | whatever the pages held, the finished bitmap tells exactly which pages were free, if and only if every page whose bit lies in a part that is not filled was free; which parts those are, the memory map determines |
| Bitmap.ReservedLooksFree | kernel/src/main/cpp/paging.cpp:135-137 | a memory map, and frames of zeros, for which a page that was never free looks free |
| Adler.AddAll | packages/miniz/src/main/c/miniz.c:46-64 | blocks of 5552 bytes, the odd one first, never overflow 32 bits and leave the sums reduced after every byte would be |
| Adler.Adler32 | packages/miniz/src/main/c/miniz.c:40-66 | the checksum of the standard from any 32-bit seed and for all data, the empty included; 1 without data |
| Adler.UpdateCheck | packages/miniz/src/main/c/miniz.c:2891-2914 | the decompressor's copy computes the same |
| Adler.ReduceLate | packages/miniz/src/main/c/miniz.c:61-61 | reducing at the end is reducing at every byte, unless there is none |
| Adler.BlockFits | packages/miniz/src/main/c/miniz.c:43-63 | the bound of 5552: both sums stay below 2^32 |
| Adler.ChecksumAppend | packages/miniz/src/main/c/miniz.c:40-66 | a checksum continued over more data is the checksum of all |
| Adler.ChecksumMeans | packages/miniz/src/main/c/miniz.c:40-66 | from seed 1: one plus the sum of the bytes, and the sum of its running values, modulo 65521 (section 2.2 of RFC 1950) |
| NameIndex.SortIndex | packages/miniz/src/main/c/miniz.c:3547-3598 | the heap sort permutes the indices into case-insensitive name order |
| NameIndex.SiftDown | packages/miniz/src/main/c/miniz.c:3566-3576 | sifting restores the heap and permutes only its part of the array |
| NameIndex.SiftStep | packages/miniz/src/main/c/miniz.c:3566-3576 | the greater child moves up and the hole down |
| NameIndex.HeapTop | packages/miniz/src/main/c/miniz.c:3583-3596 | the first place of a heap holds a last name |
| NameIndex.FilenameLess | packages/miniz/src/main/c/miniz.c:3518-3538 | the comparison loop decides the strict lexicographic order of lower-cased names; for any copies in small letters that is the order of their bytes |
| NameIndex.FilenameCompare | packages/miniz/src/main/c/miniz.c:4352-4368 | the three-way comparison agrees with that order and is zero exactly for names that agree but for the case of the 26 letters |
| NameIndex.SameIsByLetter | packages/miniz/src/main/c/miniz.c:3208 | names are equal up to case exactly if they have the same length and at each place the same byte, or 65 + k and 97 + k for some k below 26, either way round |
| NameIndex.OrderIsByBytes | packages/miniz/src/main/c/miniz.c:3518-3538 | the order is that of the bytes of the names with each 65 + k replaced by 97 + k; names without such bytes stand in the order of their bytes |
| NameIndex.Trichotomy | packages/miniz/src/main/c/miniz.c:3518-3538 | neither before nor after means equal up to case |
| NameIndex.LeTransitive | packages/miniz/src/main/c/miniz.c:3518-3538 | "not after" is transitive |
| NameIndex.BinarySearch | packages/miniz/src/main/c/miniz.c:4370-4409 | finds an entry with the name up to case exactly if there is one |
| NameIndex.Scan | packages/miniz/src/main/c/miniz.c:4438-4480 | finds the first such entry |
| NameIndex.Locate | packages/miniz/src/main/c/miniz.c:4421-4480 | index and scan succeed for the same names, exactly if there is an entry whose name agrees but for the case of letters, byte by byte, and return such an entry |

## Left out

- LzParser.Compressor.Compress: whether a caller's buffer is full, which decides if a call returns early, is left open, and the callback that takes output is not modelled.
- LzParser.Compressor.CompressNormal: the position is an unbounded number; the source keeps it in 32 bits and only ever uses differences and residues of it. How many probes a search has is a parameter.
- InflateStream.Decompressor.Decompress: is about input that keeps to some stream, good up to its end or to a block that is refused, as far as it has arrived. Not among them are streams that use the length symbols 286 and 287 or the distance symbols 30 and 31, and streams with a code of one symbol that send other bits than its code; a match before the start of the output is only seen in flat buffers, and wrapping ones are taken to have at least 32 KiB.
- LzSymbols.LenTables: the encoder's tables are written as functions, range by range, with the values of the source's arrays.
- BlockCode.ItemRoundTrip: the symbols 286, 287, 30 and 31, which no encoder sends, are not decoded.
- BootPaging.PageTableBuilder.MapPages: nothing is said of memory after an entry has destroyed the tables.
- BootPaging.PageTableBuilder.MapNewPages: the contents of the new frames are not followed.
- UefiMemory.UefiMemoryBootstrapper.AllocatePages: descriptors are a list; the stride between them in memory is not modelled, and the firmware is taken at its word that they are page-aligned, disjoint and within 64 bits.
- Bitmap.BitmapAllocator.Init: whether a page of the bitmap can be mapped is a parameter; the kernel's page tables are not involved. They take no frames from the bootstrap allocator: they are built with the page allocator itself, which refuses until it is initialised and has no free page after that, so that mapping works only where all tables exist.
- Adler.Adler32: seeds have 32 bits; on platforms with a 64-bit `unsigned long` a caller could pass more.
- NameIndex.FilenameCompare: the difference of two lengths is a plain integer; the source casts it to `int`, which agrees for names below 2 GiB.
- NameIndex.Scan: searches by comment, without paths, or with regard to case are not modelled; the index is not used for them.
- The zlib wrapper of a stream, its header and the comparison with its trailer.
- The control flow of the decompressor as a coroutine; its saved state is fields of `InflateStream.Decompressor` and of the readers of its blocks, which are objects of their own.
- The variants for unaligned loads and `tdefl_compress_fast`, which are not compiled; PNG and ZIP files apart from the name index.
- The kernel's `allocatePages`, its `map` and `tableAddress`, and the destructor that unmaps the loader's pages.
- Translation caches and other behaviour of the processor; the page walk is a function of memory.
