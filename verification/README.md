# Verified models of three vendored components

The Flutter app in this repository carries three components whose correctness rests on invariants that no
single function shows. This Dafny project models them and proves what they promise.

**LevelDB's snapshot iterator** (`ios/Pods/leveldb-library/db`). `DBIter` walks a list of versions, sorted by
user key and newest first, and shows the map that one snapshot sees. `DbFormat.dfy` has the key format and its
order, `DbIter.dfy` the iterator as a class over an arbitrary sorted list, and the plain cursor over the
visible map that it refines, for every sequence of calls and across every change of direction.

**nanopb** (`ios/Pods/nanopb`), a protobuf codec driven by descriptor tables. `PbVarint.dfy` has the integers,
`PbSchema.dfy` the descriptors and messages, `PbWire.dfy` the bytes as functions, `PbFieldIter.dfy`,
`PbOutput.dfy` and `PbInput.dfy` the C code as classes proved against these functions. `PbMerge.dfy` says what
decoding means without bytes, by merging messages, and proves that decoding an encoded message is exactly
that, for every reader whose schema may lack fields at any depth. `PbRoundTrip.dfy`, `PbTheorems.dfy`,
`PbValid.dfy`, `PbConcat.dfy` and `PbTransfer.dfy` draw the conclusions. `PbFormat.dfy` has the wire format byte by
byte, `PbDefaults.dfy` what members hold at the beginning and what the encoder leaves out, and `PbDecoded.dfy` what
may come out of arbitrary bytes.

**Two parts of `web/sqflite_sw.js`** (names in backquotes are the minified ones).
- Arbitrary-precision integers (`A.a7` and its digit routines): `Bits.dfy`, `BigDigits.dfy`, `BigInt.dfy`,
  `BigDivision.dfy`, `BigText.dfy`. Digit arrays hold 16-bit digits, so every write also proves that no carry
  is lost.
- The IndexedDB file system (`A.cc`): `FileBlocks.dfy` has file contents and stored blocks, `BlockStore.dfy`
  the persistent store, `WorkItems.dfy` the queued work items and why merging or cancelling them is sound,
  `FsWorlds.dfy` what the calls mean when every item takes effect at once, `FsQueue.dfy` the queue by value and
  what a flush stands for, `IndexedDbFs.dfy` the file system as a class. Files are real arrays there, and a
  queued write holds a reference to the array that the file had before it, which later writes change in place.
- A third, smaller part is the path normaliser `A.qb`, `DotSegments.dfy`, proved equal to the algorithm of
  section 5.2.4 of RFC 3986.

`Basics.dfy` has what they share. `dafny verify dfyconfig.toml` checks everything (add
`--verification-time-limit 0` on slow machines).

Properties that do not hold of the code for all inputs are stated with the exact condition under which they
do, and with inputs for which they fail.
- A stored file can differ from the one in memory: `FileContents.WriteAgreesIff`,
  `FileContents.TruncateAgreesIff` and `Worlds.StepAgreesIff` say exactly when a call keeps them equal. Bytes
  that truncation leaves in a block show when a later write leaves a gap over them
  (`FileContents.StaleBytesShow`) or when the file grows again (`FileContents.StaleBytesGrowBack`). A file that is
  gone comes back in memory when it is written to or resized, and is not stored again
  (`Worlds.GoneStaysUnstored`). Readability and length are never lost: `Worlds.RunSound` holds of every history.
- What a flush leaves in the store is what the files were when it was called, except that bytes which later calls
  write in place may show (`Flushes.AsOf`), and they do (`Flushes.LaterByteShows`).
- A nanopb message can be encoded and not decode again. `PbReaders.Room` is the exact condition. It fails for a
  string that fills its member without a terminating NUL, which the encoder writes and the decoder refuses
  (`PbValidMessages.UnterminatedIsLost`), and for a string, submessage or packed block whose length takes more
  than the 32 bits that the decoder reads (`PbValidMessages.LongBlockIsLost`). Below 4 GiB only the first can
  happen (`PbValidMessages.EncodedDecodes`).
- Decoding two messages one behind the other can overflow a member that each of them fits alone;
  `PbConcatenation.Fit` is the exact condition, and `PbValidMessages.TogetherTooMany` such a pair.
- The 32-bit varint decoder takes some 64-bit values for 32-bit ones, among them sign-extended negative numbers
  (`PbVarint.NegativeNarrows`): `PbVarint.Varint32Reads` says which.

Where code and comments disagree, the model follows the code. The comment at
`ios/Pods/leveldb-library/db/db_iter.cc:44` says that in reverse the internal iterator stands just before all
entries of the current key; entries newer than the snapshot may lie in between, and `DbIters.DBIter.Consistent`
says so. In `ios/Pods/nanopb/pb_common.c:87-104` a search for tag 0 in a message type without fields finds the
terminator, and `ios/Pods/nanopb/pb_decode.c:934-1079` then reads a bool; `PbDecoding.DecodeLoop` does the same.
`ios/Pods/nanopb/pb_decode.c:211-236` counts bits in eight bits, so that in a varint of more than 37 bytes the
count wraps around; `PbVarint.Varint32Loop` does too.

## Model

| member | source | states |
|---|---|---|
| DotSegments.PopIsRemoval | web/sqflite_sw.js:2819-2822 | popping a segment, and the empty one that replaces the last, is the standard's removal of the last segment from the output |
| DotSegments.DotStep | web/sqflite_sw.js:2819-2822 | one `.` or `..` segment is one step of the standard's string rewriting |
| DotSegments.PlainStep | web/sqflite_sw.js:2823-2824 | pushing any other segment is one step of the standard's string rewriting |
| DotSegments.StepKeepsAnswer | web/sqflite_sw.js:2818-2824 | each turn of the segment loop keeps the final answer of the standard's algorithm on output and rest |
| DotSegments.ShortcutIsSafe | web/sqflite_sw.js:2813-2814 | a path that `q7` lets through unchanged has no dot segments |
| DotSegments.DotFreeUnchanged | web/sqflite_sw.js:2816 | the standard's algorithm leaves paths without dot segments alone, so the shortcut returns its answer |
| DotSegments.AnswerIsDotFree | web/sqflite_sw.js:2818-2825 | from any point of the segment loop on, the standard's answer keeps no dot segment |
| DotSegments.Normalize | web/sqflite_sw.js:2815-2825 | for every string the result is remove_dot_segments of section 5.2.4 of RFC 3986, and has no dot segments |
| DotSegments.Idempotent | web/sqflite_sw.js:2815-2825 | the normal form of any string has no dot segments, and normalising twice is normalising once |
| Rfc3986.FirstExample | web/sqflite_sw.js:2815-2825 | the algorithm that the normaliser is proved equal to gives the answer of the first example in section 5.2.4 of RFC 3986 |
| DbFormat.KeyRoundTrip | ios/Pods/leveldb-library/db/dbformat.cc:15-24 | an internal key with a sequence number below 2^56 parses back to itself |
| DbFormat.KeyBytes | ios/Pods/leveldb-library/db/dbformat.cc:15-24 | where user key, type and the seven bytes of the sequence number stand, the least significant one first |
| DbFormat.ParsesIff | ios/Pods/leveldb-library/db/dbformat.cc:15-24 | a key parses exactly if it has eight bytes and a known type, and is the encoding of what it parses to |
| DbFormat.CompareIsNewestFirst | ios/Pods/leveldb-library/db/dbformat.cc:47-63 | comparing packed keys orders by user key, then newest (sequence, type) first, and is zero only for equal keys |
| Snapshots.Snapshot.CurrentIsFirst | ios/Pods/leveldb-library/db/db_iter.cc:177-207 | of a user key's entries the current one is the first that the snapshot may read |
| Snapshots.Snapshot.ViewIs | ios/Pods/leveldb-library/db/db_iter.cc:177-207 | the visible map has a key exactly if its latest entry that the snapshot may read is a value, and then that value |
| DbIters.SeekKeySplits | ios/Pods/leveldb-library/db/db_iter.cc:278-290 | the seek key of t lies behind exactly the entries of smaller keys and those of t that are newer than the snapshot |
| DbIters.SeekPosition | ios/Pods/leveldb-library/db/db_iter.cc:278-290 | where the internal seek stops, nothing visible from t on has been passed and no entry is shadowed by a skipped one |
| DbIters.FirstShown | ios/Pods/leveldb-library/db/db_iter.cc:177-207 | the first shown entry behind a bound is the least visible key of the range |
| DbIters.LastShown | ios/Pods/leveldb-library/db/db_iter.cc:236-276 | the last shown entry before a bound is the greatest visible key of the range |
| DbIters.DBIter.SkipStep | ios/Pods/leveldb-library/db/db_iter.cc:182-205 | passing an entry with a key up to the skipped one keeps the knowledge of what is covered |
| DbIters.DBIter.NotHidden | ios/Pods/leveldb-library/db/db_iter.cc:193-201 | a readable value that is not skipped is the current entry of its key |
| DbIters.DBIter.StopsBefore | ios/Pods/leveldb-library/db/db_iter.cc:241-254 | going back, the value saved when a smaller key is met is the newest of its key that the snapshot may read |
| DbIters.DBIter.FindNextUserEntry | ios/Pods/leveldb-library/db/db_iter.cc:177-207 | stops at the first shown entry from the floor on, or is invalid if there is none |
| DbIters.DBIter.FindPrevUserEntry | ios/Pods/leveldb-library/db/db_iter.cc:236-276 | stops at the last shown entry up to the start, with its value saved, or is invalid if there is none |
| DbIters.DBIter.Next | ios/Pods/leveldb-library/db/db_iter.cc:141-175 | from either direction: moves the cursor over the visible map to the next greater key, or off its end |
| DbIters.DBIter.Prev | ios/Pods/leveldb-library/db/db_iter.cc:209-234 | from either direction: moves the cursor to the next smaller key, or off |
| DbIters.DBIter.Seek | ios/Pods/leveldb-library/db/db_iter.cc:278-290 | moves the cursor to the least visible key not below the target |
| DbIters.DBIter.SeekToFirst | ios/Pods/leveldb-library/db/db_iter.cc:292-301 | moves the cursor to the least visible key |
| DbIters.DBIter.SeekToLast | ios/Pods/leveldb-library/db/db_iter.cc:303-308 | moves the cursor to the greatest visible key |
| Cursors.MovesIsFunctional | ios/Pods/leveldb-library/db/db_iter.cc:141-308 | the plain cursor's moves are determined, so refinement leaves no choice |
| Cursors.TraceIsFunctional | ios/Pods/leveldb-library/db/db_iter.cc:141-308 | so is the trace of a whole sequence of calls |
| Cursors.ThereAndBack | ios/Pods/leveldb-library/db/db_iter.cc:141-308 | seeking a key that is there finds it, and a step and a step back, in either order, lead to where one was |
| Cursors.Sweep | ios/Pods/leveldb-library/db/db_iter.cc:141-308 | from the first key on with Next, or from the last with Prev, every key of the map is visited once, and then the cursor is invalid |
| DbIters.Drive | ios/Pods/leveldb-library/db/db_iter.cc:39-308 | for every list, snapshot and sequence of calls, validity, keys and values are those of the plain cursor over the visible map |
| BigDigits.Normalized | web/sqflite_sw.js:2192-2196 | cuts leading zero digits and keeps the value |
| BigDigits.ShiftDigits | web/sqflite_sw.js:2221-2229 | multiplies by a power of 65536, also within one array |
| BigDigits.ShiftBits | web/sqflite_sw.js:2230-2238 | multiplies by a power of two below 65536 at an offset, with no bit lost between digits |
| BigDigits.ShiftLeft | web/sqflite_sw.js:2239-2247 | multiplies by any power of two, and tells the digits used |
| BigDigits.ShiftRight | web/sqflite_sw.js:2248-2259 | splits the value into quotient and low bits |
| BigDigits.CompareDigits | web/sqflite_sw.js:2260-2265 | has the sign of the difference of the values |
| BigDigits.AddDigits | web/sqflite_sw.js:2266-2278 | the digits written are the sum, with its carry |
| BigDigits.SubtractDigits | web/sqflite_sw.js:2279-2290 | the digits written are the difference, also in place, and the borrow ends |
| BigDigits.MultiplyAdd | web/sqflite_sw.js:2291-2304 | adds a multiple of one number to another in place; no carry leaves the room that the sum needs |
| BigInts.Make | web/sqflite_sw.js:2192-2196 | the constructor normalises: no leading zero digit, zero is not negative |
| BigInts.FromInt | web/sqflite_sw.js:2203-2220 | the value of every integer, with the least 64-bit one by its own branch |
| BigInts.Negate | web/sqflite_sw.js:7030-7035 | negation, with zero kept non-negative |
| BigInts.ShiftRightDigits | web/sqflite_sw.js:7036-7050 | floor division by a power of 65536, also of negative numbers |
| BigInts.FloorByParts | web/sqflite_sw.js:7051-7070 | dropped digits and bits are together the remainder, and zero only if all of them are |
| BigInts.ShiftRightBits | web/sqflite_sw.js:7051-7070 | floor division by 2 to any shift count, also of negative numbers; a negative count throws |
| BigInts.Compare | web/sqflite_sw.js:7071-7075 | orders as the integers do, for all signs |
| BigInts.AddAbs | web/sqflite_sw.js:7076-7084 | the sum of the magnitudes with the given sign, normalised |
| BigInts.SubAbs | web/sqflite_sw.js:7085-7092 | the difference of the magnitudes with the given sign, normalised |
| BigInts.Add | web/sqflite_sw.js:7093-7100 | the integer sum for all signs and lengths |
| BigInts.Subtract | web/sqflite_sw.js:7101-7108 | the integer difference for all signs and lengths |
| BigInts.Multiply | web/sqflite_sw.js:7109-7118 | the integer product for all signs and lengths |
| DivisionTheory.EstimateBounds | web/sqflite_sw.js:2305-2313 | the estimated digit is never too small and at most two too large |
| BigDivision.EstimateInWindow | web/sqflite_sw.js:2305-2313 | the same for the digits that the division looks at |
| BigDivision.Complement | web/sqflite_sw.js:7159-7163 | the auxiliary number is a power of the base minus the divisor |
| BigDivision.TopTellsTheDigit | web/sqflite_sw.js:7167-7170 | the digit above the window, into which the complement carries, tells whether the estimate was too large |
| BigDivision.Correct | web/sqflite_sw.js:7167-7170 | the correction loop ends, at the true digit |
| BigDivision.OneDigit | web/sqflite_sw.js:7165-7170 | one turn takes one digit off the dividend and keeps dividend = quotient * divisor + rest |
| BigDivision.LongDivision | web/sqflite_sw.js:7137-7170 | leaves the scaled remainder and the quotient in the digits, for every dividend and shorter or equal divisor |
| BigDivision.DivisionCache.Divide | web/sqflite_sw.js:7135-7177 | afterwards the cache holds quotient and remainder of these operands, whether or not they were in it |
| BigDivision.DivisionCache.QuotientOf | web/sqflite_sw.js:7119-7126 | the truncated quotient for every dividend and non-zero divisor |
| BigDivision.DivisionCache.RemainderOf | web/sqflite_sw.js:7127-7134 | the remainder with the sign of the dividend, scaled back |
| BigDivision.TruncatedDivision | web/sqflite_sw.js:7119-7134 | quotient and remainder are the only ones with dividend = q * divisor + r, r smaller than the divisor and of the dividend's sign |
| DecimalText.NumeralRoundTrip | web/sqflite_sw.js:7185-7206 | the value of a printed numeral is the number |
| DecimalText.NumeralValueIs | web/sqflite_sw.js:2149-2155 | the value of a digit string, digit by digit |
| DecimalText.SpacesAre | web/sqflite_sw.js:11452 | white space in the pattern is that of ECMAScript |
| DecimalText.TextShape | web/sqflite_sw.js:7185-7206 | the text is a minus sign exactly for negative numbers, and digits without leading zeros |
| DecimalText.UnsignedOf | web/sqflite_sw.js:2177-2191 | white space on both sides and a sign go, and only a minus sign negates |
| DecimalText.TextRoundTrip | web/sqflite_sw.js:2177-2189 | the decimal pattern accepts the text of every integer and gives its sign and digits |
| HexText.HexTextRoundTrip | web/sqflite_sw.js:2177-2189 | the hexadecimal alternative accepts the text of every integer, which means that integer |
| HexText.HexValueIs | web/sqflite_sw.js:2156-2157 | the value of a string of hexadecimal digits, digit by digit, in both cases |
| HexText.LowerValue | web/sqflite_sw.js:2156-2157 | it is the value of the string in lower case |
| HexText.DecimalMeans | web/sqflite_sw.js:2177-2191 | every digit string with any sign, or none, and any white space around it has its value, negative exactly for a minus sign |
| HexText.PrefixedMeans | web/sqflite_sw.js:2177-2191 | so has every string of hexadecimal digits behind 0x or 0X |
| HexText.OnlyNumerals | web/sqflite_sw.js:2177-2191 | nothing else has a meaning |
| BigText.ToString | web/sqflite_sw.js:7185-7206 | prints the decimal text of every integer, from reversed chunks of four padded digits |
| BigText.Chunks | web/sqflite_sw.js:7195-7203 | the chunks, put together in reverse, are the numeral |
| BigText.ParseDigits | web/sqflite_sw.js:2149-2155 | the value of any digit string, whatever the length of its first chunk |
| BigText.ParseHex | web/sqflite_sw.js:2156-2176 | the value of any string of hexadecimal digits, whose first chunk may be short, with its sign |
| BigText.Parse | web/sqflite_sw.js:2177-2191 | for every string: null exactly if it is neither a decimal nor a hexadecimal numeral, and otherwise its value |
| BigText.PrintAndParse | web/sqflite_sw.js:7185-7206 | parsing what was printed gives the number back, and the division cache stays right |
| FileContents.WriteAgreesIff | web/sqflite_sw.js:10194-10223 | a stored write keeps the stored file equal to memory exactly if no stale byte shows in the gap before it |
| FileContents.TruncateAgreesIff | web/sqflite_sw.js:10224-10249 | a stored change of size does exactly if no stale byte shows in what it adds |
| FileContents.EndBlockStays | web/sqflite_sw.js:10224-10249 | which blocks a stored change of size leaves, and that it leaves them whole |
| FileContents.StaleBytesShow | web/sqflite_sw.js:10224-10249 | a concrete file where a later write leaves a gap over stale bytes and they show |
| FileContents.StaleBytesGrowBack | web/sqflite_sw.js:10224-10249 | and the same file made longer again, where they show too |
| BlockWriters.ChunkStep | web/sqflite_sw.js:10329-10342 | one chunk brings its block up to the content written so far and leaves the other blocks alone |
| BlockWriters.BlockWriter.PutChunk | web/sqflite_sw.js:10330 | splices a chunk into the block collected so far, or into one copied from the original content |
| BlockWriters.BlockWriter.Add | web/sqflite_sw.js:10331-10342 | after each write the collected blocks are the touched blocks of the new content, and the length is its length |
| BlockStores.ViewUpdated | web/sqflite_sw.js:10109-10266 | changing one file's record changes the stored files by name at that name only |
| BlockStores.BlockStore.Lookup | web/sqflite_sw.js:10142-10155 | finds the file of a name exactly if it is stored |
| BlockStores.BlockStore.Add | web/sqflite_sw.js:10502-10517 | adds an empty file, and is refused for a taken name |
| BlockStores.BlockStore.Delete | web/sqflite_sw.js:10250-10265 | removes the file and all of its blocks, and no others |
| BlockStores.BlockStore.Truncate | web/sqflite_sw.js:10224-10249 | cuts blocks behind the new last one only when the file shrinks; fails only for a missing file |
| BlockStores.BlockStore.PutBlocks | web/sqflite_sw.js:10194-10223 | the touched blocks and the length become those of the new content |
| BlockStores.BlockStore.Read | web/sqflite_sw.js:10157-10193 | the content of the blocks up to the length, zeros where there is none; fails exactly if a block starts behind the end |
| WorkItems.DrainByFile | web/sqflite_sw.js:10355-10361 | running a queue does to each file what that file's own items do in order |
| WorkItems.FoldMutated | web/sqflite_sw.js:10441-10453 | an in-place write into captured arrays changes what queued items do only in bytes that the new write writes, and none fails that did not |
| WorkItems.WritesShowAt | web/sqflite_sw.js:10529-10541 | replaying writes over an array that a later one went through gives, at every position, the byte that it would have given or that of the later write |
| WorkItems.ReplayInPlace | web/sqflite_sw.js:10518-10541 | replaying merged writes over an array that has them already still gives the current content |
| WorkItems.WriteMerged | web/sqflite_sw.js:10519-10528 | a write joined to a pending one means the pending one followed by it |
| Coalescing.WriteQueued | web/sqflite_sw.js:10519-10541 | a write queued with an array that it has already changed means the write of what was there before |
| Coalescing.WriteCoalesced | web/sqflite_sw.js:10519-10541 | joining a pending write means running the new one behind the whole queue |
| Coalescing.WriteUnlinked | web/sqflite_sw.js:10475-10489 | before a delete, a pending write without later items of its file may go |
| Coalescing.CreateUnlinked | web/sqflite_sw.js:10475-10489 | unlinking a pending create is the delete |
| Coalescing.AlreadyDeleted | web/sqflite_sw.js:10475-10489 | behind a pending delete a second one is superfluous |
| Worlds.StepMemory | web/sqflite_sw.js:10405-10456 | what each call does to the content of each file in memory, whether or not it is deleted on close: the call's own effect on its file, none on the others |
| Worlds.StepTemp | web/sqflite_sw.js:10405-10416 | which files are deleted on close: those that were opened so when they were made, until they are deleted |
| Worlds.RunMemory | web/sqflite_sw.js:10405-10456 | over every history, what a file holds in memory is what the calls on it have made of it, and no others |
| Worlds.StepKeeps | web/sqflite_sw.js:10405-10456 | whatever is called, also on files that are gone, nothing is stored that is not in memory, and delete-on-close files never are |
| Worlds.StepAgreesIff | web/sqflite_sw.js:10350-10456 | a call of any kind keeps store and memory in agreement exactly if it leaves no stale byte visible and does not bring back a file that is gone |
| Worlds.GoneStaysUnstored | web/sqflite_sw.js:10435-10453 | a write to a file that is gone, and a resize of one, which make it in memory only |
| Worlds.StepSound | web/sqflite_sw.js:10109-10266 | whatever is called, every stored file keeps the length that it has in memory and blocks that can be read back |
| Worlds.RunSound | web/sqflite_sw.js:10157-10193 | over every history, careful or not, no stored file becomes unreadable, and each reads back in its length in memory |
| Worlds.ReopenedAgrees | web/sqflite_sw.js:10384-10402 | loading again always restores agreement, and finds exactly what was in memory if and only if store and memory agreed |
| Worlds.CarefulRunAgrees | web/sqflite_sw.js:10350-10456 | over any history whose writes start at or before the end of a file that exists and whose truncations never grow one, stored files read back as they are in memory |
| QueueStates.ScanIsSound | web/sqflite_sw.js:10475-10489 | whatever the scan for a delete unlinks, what remains, with the delete if it is still to come, means the whole queue and the delete |
| QueueStates.WriteMeans | web/sqflite_sw.js:10519-10541 | submitting a write, with the array mutated under queued items, means the write at once |
| QueueStates.RemoveMeans | web/sqflite_sw.js:10405-10407 | submitting a delete, whatever it cancels, means the delete at once |
| QueueStates.OpenMeans | web/sqflite_sw.js:10409-10416 | opening a new file means creating it in memory, and in the store unless it is deleted on close |
| QueueStates.BarrierMeans | web/sqflite_sw.js:10435-10438 | resizes and flushes queue up behind everything, and nothing merges across them |
| QueueStates.TempMeans | web/sqflite_sw.js:10441-10453 | calls on delete-on-close files leave the store alone |
| QueueStates.TakenKeepsMeaning | web/sqflite_sw.js:10355-10361 | taking the head from the queue changes nothing |
| QueueStates.ExecutedKeepsMeaning | web/sqflite_sw.js:10418-10422 | running it changes nothing in what the drained queue will mean |
| Flushes.CallKeepsFlush | web/sqflite_sw.js:10403 | whatever is called, the items in front of a flush still lead to the store as of the flush, except for bytes written in place since; merging and cancelling stop at the flush |
| Flushes.HeadKeepsFlush | web/sqflite_sw.js:10355-10361 | running the items in front of a flush leads to the store that it stands for, which is there when it is the flush's turn |
| Flushes.AsOfReads | web/sqflite_sw.js:10403 | at that time every file has the length that it had in memory at the flush, and every byte is that of the flush or of a later in-place write to the same position |
| Flushes.LaterByteShows | web/sqflite_sw.js:10441-10453 | a queue as an in-place write to a stored file and a flush leave it, and a call after which that flush completes with a byte of the later call |
| FileSystems.FileSystem.constructor | web/sqflite_sw.js:10350 | starts with no files, no queue and nothing running |
| FileSystems.FileSystem.Load | web/sqflite_sw.js:10384-10402 | memory becomes what every stored file reads back as, in arrays of their own |
| FileSystems.FileSystem.Pump | web/sqflite_sw.js:10355-10361 | takes the next item exactly if none is running |
| FileSystems.FileSystem.FindPending | web/sqflite_sw.js:10519-10526 | finds the pending write that a new one joins |
| FileSystems.FileSystem.SubmitWrite | web/sqflite_sw.js:10519-10528 | the new queue, by value, after joining or appending |
| FileSystems.FileSystem.CancelPending | web/sqflite_sw.js:10476-10487 | the new queue, by value, after unlinking what a delete makes superfluous |
| FileSystems.FileSystem.SubmitDelete | web/sqflite_sw.js:10475-10489 | the new queue, by value, with the delete if it is still to come |
| FileSystems.FileSystem.Overwrite | web/sqflite_sw.js:10568-10573 | an in-place write shows in the file and in every queued write that refers to the array, and nowhere else |
| FileSystems.FileSystem.WriteMemory | web/sqflite_sw.js:10568-10577 | the file's content is overwritten in place if the data fits, and otherwise copied into a longer array |
| FileSystems.FileSystem.WriteMissing | web/sqflite_sw.js:10568-10577 | writing to a file that is gone makes it again, unless nothing is written |
| FileSystems.FileSystem.Open | web/sqflite_sw.js:10409-10416 | means the immediate step and leaves the content of all files alone but for a new empty one; refuses exactly a missing file without the create flag |
| FileSystems.FileSystem.WriteAt | web/sqflite_sw.js:10441-10453 | writes into the file in memory, deleted on close or not, and into no other; means the immediate step on memory and drained store, whatever is queued, also on a file that was deleted while open |
| FileSystems.FileSystem.SetSize | web/sqflite_sw.js:10435-10438 | cuts the file in memory or fills it with zeros, and no other; means the immediate step, also on a file that is gone |
| FileSystems.FileSystem.Remove | web/sqflite_sw.js:10405-10407 | afterwards the file is gone from memory, and no other; means the immediate step, also for a name that is not there |
| FileSystems.FileSystem.Flush | web/sqflite_sw.js:10403 | means nothing for files and store, and waits behind exactly the items that are pending |
| FileSystems.FileSystem.FlushAndServe | web/sqflite_sw.js:10403 | with calls and background steps in any order until the flush completes, the store then holds every file as of the flush, except for bytes written in place since; the calls mean what they always mean |
| FileSystems.FileSystem.RunWrite | web/sqflite_sw.js:10529-10541 | the store changes as the write item says |
| FileSystems.FileSystem.RunItem | web/sqflite_sw.js:10473-10541 | each kind of item changes the store as it says, with cached ids kept right |
| FileSystems.FileSystem.Start | web/sqflite_sw.js:10529-10537 | a write that has started does not see later writes to the array |
| FileSystems.FileSystem.Execute | web/sqflite_sw.js:10418-10422 | the drained meaning stays while the running item takes effect |
| FileSystems.FileSystem.Finish | web/sqflite_sw.js:10418-10422 | completion takes the next item |
| FileSystems.FileSystem.Serve | web/sqflite_sw.js:10350-10456 | for every history with background steps anywhere, names, contents and drained store are those of running every item at once |
| FileSystems.FileSystem.Settle | web/sqflite_sw.js:10355-10361 | the queue runs dry, and then the store is the drained store |
| FileSystems.FileSystem.Session | web/sqflite_sw.js:10350-10577 | after any history every stored file reads back in its length, and nothing is pending; after a careful one every persistent file, and no other, is in the store and reads back as in memory |
| FileSystems.Reopen | web/sqflite_sw.js:10384-10402 | loading the store again never fails and leaves store and memory in agreement, after any history; it gives every persistent file its content in memory exactly if they agreed before |
| FileSystems.CarefulSessionsRemember | web/sqflite_sw.js:10384-10402 | over careful sessions loading never finds anything else than what was in memory |
| FileSystems.Lifetime | web/sqflite_sw.js:10350-10577 | from an empty store on, over any number of sessions of any calls with closing and loading in between: loading never fails, and files and store are those of running every item at once; over careful sessions every file is what it was in memory |
| PbVarint.Varint64RoundTrip | ios/Pods/nanopb/pb_decode.c:255-275 | every 64-bit value is read back, and exactly its bytes are consumed |
| PbVarint.VarintIs | ios/Pods/nanopb/pb_encode.c:608-628 | the bytes of a varint are its groups of seven bits, none superfluous, with the top bit set on all but the last |
| PbVarint.Varint64Is | ios/Pods/nanopb/pb_decode.c:255-275 | on any bytes: at most ten of them, up to one without top bit, of which the low 64 bits count |
| PbVarint.Varint32Is | ios/Pods/nanopb/pb_decode.c:187-252 | on any bytes: up to 35 bits of which 32 may be set, or a sign-extended negative number |
| PbVarint.Varint32Reads | ios/Pods/nanopb/pb_decode.c:187-247 | exactly which 64-bit values the 32-bit decoder accepts, and as what |
| PbVarint.Varint32RoundTrip | ios/Pods/nanopb/pb_decode.c:187-247 | below 2^63 it accepts the 32-bit values and no others |
| PbVarint.NegativeNarrows | ios/Pods/nanopb/pb_decode.c:221-230 | a sign-extended negative int32 is read as its bit pattern |
| PbVarint.DecodersAgree | ios/Pods/nanopb/pb_decode.c:187-275 | on any bytes that both accept, both decoders consume the same and agree modulo 2^32 |
| PbVarint.ZigZagBits | ios/Pods/nanopb/pb_encode.c:630-639 | complementing the doubled pattern is the zigzag number, and decoding undoes it |
| PbSchemas.FindsMembers | ios/Pods/nanopb/pb_common.c:29-85 | on descriptors made by the layout macros for members of any offsets and sizes, the iterator's offset is that of the member, in unions too |
| PbSchemas.NextMember | ios/Pods/nanopb/pb_common.c:52-83 | how far it goes from one field to the next: over all items of an array, and nowhere within a union |
| PbSchemas.NoOverlap | ios/Pods/nanopb/pb_common.c:52-83 | a member, with all items of an array, ends before all later ones begin |
| PbSchemas.SameMemberIff | ios/Pods/nanopb/pb_common.c:54-60 | which fields share a member |
| PbSchemas.RequiredBeforeIs | ios/Pods/nanopb/pb_common.c:74-79 | the index of required fields is the number of them in front |
| PbFieldIters.FieldIter.constructor | ios/Pods/nanopb/pb_common.c:8-27 | stands at the first field |
| PbFieldIters.FieldIter.Next | ios/Pods/nanopb/pb_common.c:29-85 | goes round in a circle; index of required fields, member and offset are those of the position that it gets to |
| PbFieldIters.FieldIter.Find | ios/Pods/nanopb/pb_common.c:87-104 | from wherever it stands, finds the field of a tag exactly if there is one |
| PbWireFormat.FieldBytes | ios/Pods/nanopb/pb_encode.c:641-690 | a field begins with a varint of tag and wire type; bytes, strings and submessages go on with a varint of their length |
| PbWireFormat.RepeatedBytes | ios/Pods/nanopb/pb_encode.c:147-236 | exactly arrays of numbers and flags are packed, into one block with its length; the others are written field by field, in order |
| PbWireFormat.FieldsInOrder | ios/Pods/nanopb/pb_encode.c:528-550 | fields are written in the order of their descriptors |
| PbWireFormat.NumberBytes | ios/Pods/nanopb/pb_encode.c:769-833 | the varint that a number of any kind and width, or a flag, is written as |
| PbWireFormat.FixedNumberBytes | ios/Pods/nanopb/pb_encode.c:641-672 | fixed numbers have four or eight bytes, the least significant one first |
| PbWireFormat.FlagReads | ios/Pods/nanopb/pb_decode.c:1334-1343 | a flag is set by any number but zero |
| PbWireFormat.NoFixedBytes | ios/Pods/nanopb/pb_decode.c:1549-1569 | an array of fixed length takes an empty one and is filled with zeros |
| PbWireFormat.TextStopsAtNul | ios/Pods/nanopb/pb_decode.c:1486-1523 | a string ends at its first NUL |
| PbWireFormat.WireTypeIgnored | ios/Pods/nanopb/pb_decode.c:406-483 | the wire type of a known field matters only for whether there is a packed block |
| PbWireFormat.SkipIs | ios/Pods/nanopb/pb_decode.c:278-331 | what is skipped for each wire type, on any bytes |
| PbWireFormat.ZeroEndsMessage | ios/Pods/nanopb/pb_decode.c:298-319 | a zero ends a message, which is accepted if no required field is missing |
| PbFreshMessages.FreshHolds | ios/Pods/nanopb/pb_decode.c:845-932 | at the beginning every member holds the default value of its descriptor, or zeros if it has none, and nothing is present |
| PbFreshMessages.DefaultsStay | ios/Pods/nanopb/pb_decode.c:1084-1096 | after decoding so does every member none of whose fields occurred in the stream |
| PbEmptyValues.EmptyIsZero | ios/Pods/nanopb/pb_encode.c:240-337 | a singular number, flag, string or byte array is left out exactly if it is zero or empty |
| PbEmptyValues.EmptyFixedBytes | ios/Pods/nanopb/pb_encode.c:288-294 | an array of fixed length is left out only if it has no bytes, whatever they are |
| PbEmptyValues.EmptyMessage | ios/Pods/nanopb/pb_encode.c:295-317 | a submessage is left out exactly if it would be encoded in no bytes |
| PbDecodedMessages.NarrowIs | ios/Pods/nanopb/pb_decode.c:1345-1380 | a signed member takes exactly the number in its range that agrees with the low 32 bits, or all 64 |
| PbDecodedMessages.IntegerReads | ios/Pods/nanopb/pb_decode.c:1382-1431 | an unsigned or zigzag member takes exactly the numbers in its range |
| PbDecodedMessages.ScalarFits | ios/Pods/nanopb/pb_decode.c:1334-1569 | whatever the bytes, a value that is decoded fits its member |
| PbDecodedMessages.DecodedIsValid | ios/Pods/nanopb/pb_decode.c:934-1096 | whatever the bytes, what is decoded is a message that its struct can hold and that can be encoded again |
| PbDecodedMessages.DecodedRoundTrip | ios/Pods/nanopb/pb_decode.c:934-1096 | and encoding and decoding that gives the same message |
| PbDecodedMessages.RoomIsEncodable | ios/Pods/nanopb/pb_encode.c:854-910 | a message that fits its members can be encoded |
| PbMerging.PayloadSkips | ios/Pods/nanopb/pb_decode.c:321-331 | skipping consumes exactly one encoded payload, unless its length does not fit 32 bits |
| PbMerging.PatternNarrows | ios/Pods/nanopb/pb_decode.c:1345-1380 | a signed member of any width reads back from its 64-bit pattern |
| PbMerging.ScalarReads | ios/Pods/nanopb/pb_decode.c:1334-1569 | every value but a submessage reads back, or is refused for lack of room, and what follows is untouched |
| PbDecodeIsMerge.ValueReads | ios/Pods/nanopb/pb_decode.c:1525-1547 | the same for submessages, which are merged into what is there |
| PbDecodeIsMerge.RequiredSeen | ios/Pods/nanopb/pb_decode.c:1021-1026 | what an encoder writes has every required field |
| PbDecodeIsMerge.OneReads | ios/Pods/nanopb/pb_decode.c:406-483 | one value into a member of any repetition rule |
| PbDecodeIsMerge.RecordReads | ios/Pods/nanopb/pb_decode.c:951-1030 | one turn of the loop on one encoded value, known or unknown |
| PbDecodeIsMerge.ElementsRead | ios/Pods/nanopb/pb_decode.c:424-452 | a packed block appends all of its elements, and fails exactly on overflow |
| PbDecodeIsMerge.MessageReads | ios/Pods/nanopb/pb_decode.c:934-1079 | decoding the encoding of any message, on top of any message, for any reader with some of its fields, is merging, failures included, and goes on behind it |
| PbRoundTrips.MergesIff | ios/Pods/nanopb/pb_decode.c:951-1030 | merging succeeds exactly if every field merges into what its member holds at the beginning |
| PbRoundTrips.Touched | ios/Pods/nanopb/pb_decode.c:406-483 | a member gets what its one present field gives on top of its old content |
| PbRoundTrips.Untouched | ios/Pods/nanopb/pb_decode.c:406-483 | all other members stay |
| PbReaders.EmptyShows | ios/Pods/nanopb/pb_encode.c:240-337 | a value that is left out as empty is what a fresh member holds, at any depth |
| PbReaders.MergeShows | ios/Pods/nanopb/pb_decode.c:845-932 | merging into a fresh message succeeds exactly if there is room, and shows every field |
| PbTheorems.ReaderSees | ios/Pods/nanopb/pb_decode.c:278-331 | decoding with some fields removed at any depth succeeds exactly if there is room for the rest, consumes everything, and shows every field that is known |
| PbTheorems.RoundTrip | ios/Pods/nanopb/pb_decode.c:1084-1096 | decoding what was encoded succeeds exactly if lengths and capacities fit, consumes all of it, and gives the message up to the payload of absent fields |
| PbValidMessages.TerminatedRoom | ios/Pods/nanopb/pb_decode.c:1486-1523 | an encodable message below 4 GiB fits exactly if every string that is present ends with a NUL inside its member, at any depth |
| PbValidMessages.EncodedDecodes | ios/Pods/nanopb/pb_decode.c:1084-1096 | such a message decodes, and to what was encoded, exactly if its strings are terminated |
| PbValidMessages.UnterminatedIsLost | ios/Pods/nanopb/pb_decode.c:1486-1523 | a message that is encoded and does not decode: a string without NUL |
| PbValidMessages.LongBlockIsLost | ios/Pods/nanopb/pb_decode.c:372-385 | and one whose packed block has a length of 33 bits |
| PbTheorems.SameChoice | ios/Pods/nanopb/pb_decode.c:466-479 | and every oneof holds the same field |
| PbTheorems.DelimitedReading | ios/Pods/nanopb/pb_decode.c:1113-1126 | the delimited form leaves the stream exactly at what follows |
| PbTheorems.NullTerminatedReading | ios/Pods/nanopb/pb_decode.c:311-315 | a zero ends a message, whatever follows |
| PbTheorems.Concatenation | ios/Pods/nanopb/pb_decode.c:934-1079 | for any reader, decoding two messages one behind the other merges the second into the first |
| PbConcatenation.MessagesJoin | ios/Pods/nanopb/pb_decode.c:406-483 | merging on top of a decoded message: exactly when it fits, and which message results |
| PbConcatenation.ConcatenationIsMerge | ios/Pods/nanopb/pb_decode.c:406-483 | Last One Wins: scalars take the last value, repeated fields append, submessages merge, a oneof that switches starts afresh; it succeeds exactly if combined counts fit at every level |
| PbValidMessages.TogetherTooMany | ios/Pods/nanopb/pb_decode.c:406-483 | two messages that decode, but not one behind the other, since together they overflow a repeated field |
| PbTheorems.PackedIsUnpacked | ios/Pods/nanopb/pb_decode.c:424-464 | one packed block and one tagged field per element have the same effect on any message, overflow included |
| PbTheorems.WalkTellsAll | ios/Pods/nanopb/pb_decode.c:1021-1079 | decoding is decoding the fields and then asking for the tracked ones |
| PbTheorems.RequiredExactly | ios/Pods/nanopb/pb_decode.c:1039-1079 | a stream whose fields all decode is accepted exactly if the tag of every required field occurs, where only the first 64 required fields count |
| PbBitmaps.SetBit | ios/Pods/nanopb/pb_decode.c:1021-1026 | or-ing a shifted one adds one index to the set that a word stands for |
| PbBitmaps.IsMask | ios/Pods/nanopb/pb_decode.c:1062-1077 | a word equals the mask of k bits exactly if the first k indices are set and no others |
| PbRequired.AllBits | ios/Pods/nanopb/pb_decode.c:1039-1079 | all tracked fields are seen exactly if all bits below their number are set |
| PbRequired.CheckRequired | ios/Pods/nanopb/pb_decode.c:1039-1079 | the check at the end, from any position of the iterator, accepts exactly if all tracked fields were seen |
| PbInputs.IStream.Read | ios/Pods/nanopb/pb_decode.c:102-137 | the next bytes, exactly if there are so many |
| PbInputs.IStream.DecodeVarint32 | ios/Pods/nanopb/pb_decode.c:187-252 | the loop delivers what the decoder function delivers; end of file is told apart |
| PbInputs.IStream.DecodeVarint | ios/Pods/nanopb/pb_decode.c:255-275 | the same for 64 bits |
| PbInputs.IStream.MakeSubstream | ios/Pods/nanopb/pb_decode.c:372-385 | a substream of exactly the declared length, taken from the parent |
| PbInputs.IStream.CloseSubstream | ios/Pods/nanopb/pb_decode.c:387-400 | the parent goes on where the substream ends, however much of it was read |
| PbInputs.IStream.SkipField | ios/Pods/nanopb/pb_decode.c:278-331 | skips one payload of a wire type |
| PbInputs.IStream.DecodeTag | ios/Pods/nanopb/pb_decode.c:298-319 | tag and wire type, with zero as the end of a message |
| PbInputs.IStream.DecodePlain | ios/Pods/nanopb/pb_decode.c:1334-1523 | decodes each kind of value |
| PbInputs.IStream.DecodeSubmessage | ios/Pods/nanopb/pb_decode.c:1525-1547 | decodes within the declared length and leaves the stream behind it |
| PbInputs.IStream.DecodeField | ios/Pods/nanopb/pb_decode.c:406-483 | one field into its member, for each repetition rule |
| PbInputs.IStream.DecodeNoInit | ios/Pods/nanopb/pb_decode.c:934-1082 | terminates on every byte string and schema, delivers what the decoding function delivers, and consumes what bytes_left drops by |
| PbInputs.IStream.SetToDefaults | ios/Pods/nanopb/pb_decode.c:845-932 | every member of the message holds its default value, or zeros, and nothing is present |
| PbInputs.IStream.Decode | ios/Pods/nanopb/pb_decode.c:1084-1096 | decoding on top of the defaults |
| PbInputs.IStream.DecodeDelimited | ios/Pods/nanopb/pb_decode.c:1113-1126 | decoding a message of declared length |
| PbOutputs.Substream | ios/Pods/nanopb/pb_encode.c:745-764 | what a substream of the counted size writes, its parent has written |
| PbOutputs.OStream.Write | ios/Pods/nanopb/pb_encode.c:103-124 | writes or counts, and fails exactly if the room is too small |
| PbOutputs.OStream.EncodeVarint | ios/Pods/nanopb/pb_encode.c:608-628 | writes the encoding of the value |
| PbOutputs.OStream.EncodeValue | ios/Pods/nanopb/pb_encode.c:769-910 | writes each kind of value, and fails exactly if it may not be encoded or does not fit |
| PbOutputs.OStream.EncodeArray | ios/Pods/nanopb/pb_encode.c:147-236 | writes a packed block of the size computed before, or one record per element |
| PbOutputs.OStream.PackedSize | ios/Pods/nanopb/pb_encode.c:167-192 | the size of a packed block, by multiplication or by counting |
| PbOutputs.OStream.EncodeField | ios/Pods/nanopb/pb_encode.c:341-426 | writes a field by its repetition rule |
| PbOutputs.OStream.EncodeSubmessage | ios/Pods/nanopb/pb_encode.c:717-765 | sizing then writing: at every depth the second pass writes exactly what the first counted |
| PbOutputs.OStream.EncodeBehind | ios/Pods/nanopb/pb_encode.c:740-765 | the second pass succeeds and "submsg size changed" does not occur |
| PbOutputs.OStream.Encode | ios/Pods/nanopb/pb_encode.c:528-550 | succeeds exactly if the message may be encoded and fits, and touches nothing outside its room |
| PbOutputs.OStream.EncodeDelimited | ios/Pods/nanopb/pb_encode.c:552-555 | the length of the message and the message |
| PbOutputs.OStream.EncodeNullTerminated | ios/Pods/nanopb/pb_encode.c:557-565 | the message and a zero |
| PbOutputs.EncodedSize | ios/Pods/nanopb/pb_encode.c:567-576 | the exact size of the encoding |
| PbOutputs.EncodeInto | ios/Pods/nanopb/pb_encode.c:86-124 | encoding into n bytes succeeds exactly if the encoding has at most n bytes, and nothing behind them is written |
| PbTransfers.Transfer | ios/Pods/nanopb/pb_decode.c:1084-1096 | through a buffer into a reader with fewer fields: exactly when it works, and that every known field is seen |

## Left out

LevelDB
- DbIters.DBIter: read sampling, the random compaction period, the capacity tuning of the saved value, corrupt internal keys and the iterator's status are not modelled; the internal iterator is an index into a list in memory with a single position for "not valid".
- The separator, successor and filter functions of `dbformat.cc`, and `LookupKey`.

Arbitrary-precision integers
- HexText.HexDigit: takes hexadecimal digits only, which is all that the pattern lets through to it.
- BigInts.FromInt: takes any integer; numbers that JavaScript could not represent exactly do not occur in the original.
- Hash codes and conversions to other number types.

The IndexedDB file system
- BlockStores.BlockStore.PutBlocks: IndexedDB transactions are single steps; crashes inside one are not modelled. An item that fails changes nothing, and its error is not told.
- FileSystems.FileSystem.Start: an item runs in three steps (it starts, takes effect, completes), with calls between them anywhere; the store's own steps inside one item are not interleaved with calls.
- FileSystems.FileSystem.Open: files are opened by name; random names for unnamed files, the closed state of the file system, and lock levels are left out.
- The queue is a sequence; the pointers of the linked list `A.cS` are not modelled.
- Reading from memory (`hu`), access checks and paths.

nanopb
- User callbacks, extension fields, pointer fields, fixed-count arrays, build options and error messages. 32-bit descriptor fields and 64-bit sizes are assumed; sizes do not wrap around.
- PbInputs.IStream.DecodeField: the message is a value that is passed in and out, not memory written through pointers; what a failing call leaves in it is not modelled, nor are bytes of text behind its first NUL.
- PbInputs.IStream.DecodeNoInit: statically allocated messages cannot contain themselves, so schemas are finite trees.
- PbVarint.Varint32Is: says nothing of varints of more than 37 bytes, for which the bit count wraps around.
- PbOutputs.OStream.EncodeValue: descriptors with a data_size that no integer type has ("invalid data_size") do not occur.
- PbOutputs.OStream.EncodeVarint: takes any natural number; the original's ten bytes are enough for its 64-bit values.
- PbTheorems.RoundTrip: messages whose encoding has 2^63 bytes or more are excluded.

Everything else in the repository, among it the user interface libraries and the caches, has little logic of its own.
