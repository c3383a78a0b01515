# libjpeg 8d: entropy coding, scan control and buffering, in Dafny

The repository carries the Independent JPEG Group's library, release 8d, under `android_app/jni/jpeg8d`. This project
models the parts of it where a mistake would silently spoil an image, and proves that they do what they are for:

- **Arithmetic coding** (`Arith*.dfy`): the encoder's 28-bit window with stacked FF bytes, withheld zeros and the carry, the
  decoder's floating cut, the binary decisions of a block, and restart intervals. Decoding inverts encoding
  for every table, every conditioning and every restart interval, up to the magnitude the decoder can express.
- **Huffman coding** (`Huff*.dfy`): optimal tables (optimal among all prefix codes, limited to 16 bits), the derived tables
  of both sides, the bit buffers, sequential and progressive coding with end-of-band runs and buffered correction bits,
  suspension at any byte, restarts, and two-pass optimisation. Put together: an image sent by a legal progressive script
  arrives in the decoder's coefficient arrays exactly as the script says (`HuffProgression`, `CoefPlaces`), and a file is
  decoded with nothing but what its markers said (`HuffFile`).
- **Scan scripts and passes** (`ScanScript`, `ScriptLaws`, `ProgressionMonitor`, `SimpleProgression`, `PassControl`): which
  progressions are legal, what reducing a script for small blocks keeps, and which passes a compression makes.
- **Buffering** (`Geometry`, `McuLayout`, the three coefficient controllers, `RowLists`, `ContextRows`, `ContextPrep`):
  dummy blocks, interleaving, refusals by the entropy coder, and the lists of row pointers that give upsampling and
  downsampling their context rows.
- **Markers** (`Marker*.dfy`): writing headers with tables sent once, and reading them from input that arrives in pieces.

Objects whose methods update their fields are classes with the same fields; loops over arrays are loops over arrays. Ghost
fields follow what the registers stand for: the decisions coded, the bits still ahead, the scans seen. Where a module has a
method and a function for one thing, the method is proved to compute the function, and the laws are lemmas about it.

`dafny verify dfyconfig.toml` checks the project.

## Model

| member | source | states |
|---|---|---|
| `ArithTable.ExchangeIsTransition` | android_app/jni/jpeg8d/jcarith.c:226-259 | the byte of a bin holds the more probable symbol in bit 7 and the index below it; XORing that bit into the low or the next byte of the packed table word gives the byte of the state after the less or the more probable symbol |
| `ArithScan.AritabHasFixedEntry` | android_app/jni/jpeg8d/jaricom.c:148-153 | the last table entry leads only to itself and never switches, which is all the round trips ask of a table |
| `ArithBlock.DcBins` | android_app/jni/jpeg8d/jcarith.c:50-64 | coding a DC difference of magnitude up to 2^15 touches at most 49 bins of its table |
| `ArithBlock.AcBins` | android_app/jni/jpeg8d/jcarith.c:50-64 | coding the AC coefficients of a block touches at most 245 bins of its table, and the fixed bin |
| `ArithEncoder.ArithEncoder.ByteOut` | android_app/jni/jpeg8d/jcarith.c:265-309 | taking a byte out of a full C register, with a carry through stacked FF bytes, a stacked FF or a settling byte, leaves registers and pending bytes that stand for the same interval; a carry never finds no buffered byte |
| `ArithEncoder.ArithEncoder.ArithEncode` | android_app/jni/jpeg8d/jcarith.c:218-311 | registers, stacked FF bytes, withheld zeros and the bins stand, before and after, for the interval and the states of the decisions so far; the new decision is appended |
| `ArithEncoder.FinalCodeIsRoundest` | android_app/jni/jpeg8d/jcarith.c:140-145 | a multiple of 2^16 in the final interval is the value chosen: none there has more trailing zero bits |
| `ArithEncoder.ArithEncoder.FinishPass` | android_app/jni/jpeg8d/jcarith.c:132-193 | the bytes written, without the zeros dropped at the end, are a value inside the interval of the segment's decisions, stuffed; no byte written for a segment is a trailing zero |
| `ArithDecoder.ArithDecoder.FetchData` | android_app/jni/jpeg8d/jdarith.c:115-137 | data bytes come with stuffed zeros dropped; from the marker on zeros are supplied |
| `ArithDecoder.ArithDecoder.Renormalize` | android_app/jni/jpeg8d/jdarith.c:113-146 | the postponed renormalization doubles the interval until its size is normal and keeps C the distance of the code value, as far as read, from the interval's base; the first call reads two bytes |
| `ArithDecoder.ArithDecoder.ArithDecode` | android_app/jni/jpeg8d/jdarith.c:105-182 | on a segment whose bytes are any code value of a decision sequence, each call with the bin of the next decision returns that decision, and the rest is still to come |
| `ArithBlockCoder.PutDc` | android_app/jni/jpeg8d/jcarith.c:714-764 | the decisions coded are those of the DC difference in its context; the context for the next block is returned |
| `ArithBlockCoder.PutAc` | android_app/jni/jpeg8d/jcarith.c:766-822 | the decisions coded are those of the block's coefficients in zigzag order up to the last nonzero one |
| `ArithBlockCoder.GetDc` | android_app/jni/jpeg8d/jdarith.c:531-572 | where the decisions of a DC difference are next, the difference and the next context come out if its magnitude is at most 2^15; otherwise the error state does, with input and statistics as they were |
| `ArithBlockCoder.GetAc` | android_app/jni/jpeg8d/jdarith.c:576-623 | where the decisions of a block's AC coefficients are next, the cleared block is filled with exactly these coefficients |
| `ArithScan.ScanEncoder.EmitRestart` | android_app/jni/jpeg8d/jcarith.c:318-353 | the segment's bytes are a code value of its MCUs; the marker with the next number follows, and statistics, predictions and registers start over |
| `ArithScan.ScanEncoder.EncodeMcu` | android_app/jni/jpeg8d/jcarith.c:685-826 | the MCU is coded in the current segment, or in a new one after a restart marker exactly when the interval is used up |
| `ArithScan.ScanDecoder.ProcessRestart` | android_app/jni/jpeg8d/jdarith.c:189-222 | after the marker of the expected number the decoder stands before all the decisions of the next segment |
| `ArithScan.ScanDecoder.DecodeMcu` | android_app/jni/jpeg8d/jdarith.c:502-627 | an MCU that is coded next, across a due restart or not, is decoded into cleared blocks if all its DC differences are at most 2^15, and the decoder stands before the one after it; otherwise it gives the segment up, and does nothing until the next restart |
| `ArithRoundTrip.EncodeScan` | android_app/jni/jpeg8d/jcarith.c:685-826 | a scan is written as one segment for each restart interval, each the stuffed bytes of a code value of its MCUs without zero bytes at the end, with numbered restart markers between; every other FF byte is followed by 00 |
| `ArithRoundTrip.DecodeScan` | android_app/jni/jpeg8d/jdarith.c:502-627 | from any such bytes, whatever marker and bytes follow, exactly the MCUs are decoded without an error that have no DC difference above 2^15 at or before them in their restart interval, and every coded coefficient of those comes out |
| `ArithRoundTrip.RoundTrip` | android_app/jni/jpeg8d/jdarith.c:502-627 | encoding any scan and decoding it: all MCUs come back if and only if every DC difference is at most 2^15; one that is larger costs the rest of its restart interval and no more; the bytes are a coding of the scan in which only restart markers read as markers |
| `ArithRoundTrip.KeptWhenFits` | android_app/jni/jpeg8d/jdarith.c:549-556 | every MCU is recovered exactly when, along the scan with predictions reset at restarts, every DC difference fits |
| `ArithRoundTrip.LargeStepIsLost` | android_app/jni/jpeg8d/jdarith.c:549-556 | DC values -2 and 32767 in one component: the encoder codes the second, the decoder gives up at it |
| `HuffOptimal.MergeCostIsLeast` | android_app/jni/jpeg8d/jchuff.c:1279-1327 | no code lengths that satisfy the Kraft inequality cost less than repeatedly merging the two smallest counts |
| `HuffOptimal.PrefixCodeIsFeasible` | android_app/jni/jpeg8d/jchuff.c:1228-1253 | every prefix code satisfies the Kraft inequality |
| `HuffMerge.CodeSizes` | android_app/jni/jpeg8d/jchuff.c:1279-1327 | the merge loop, which walks chains of symbols, ends with code sizes that fill the code space exactly and cost no more than any sizes satisfying the Kraft inequality; they are the depths of the merge tree, and a size s calls for at least Fib(s + 2) symbols |
| `HuffMerge.OptimalAmongPrefixCodes` | android_app/jni/jpeg8d/jchuff.c:1228-1253 | no prefix code for the symbols in use costs less than these sizes |
| `HuffMerge.LongNeedsMany` | android_app/jni/jpeg8d/jchuff.c:1332-1335 | a code size above 32 bits takes at least 9,227,465 symbols |
| `HuffGenerate.CountSizes` | android_app/jni/jpeg8d/jchuff.c:1329-1339 | the symbols of each size are counted; the error is raised exactly when a size exceeds 32 bits |
| `HuffLimit.AdjustKeeps` | android_app/jni/jpeg8d/jchuff.c:1352-1363 | taking two codes from the longest length keeps the code space exactly full and the number of codes |
| `HuffLimit.LimitLengths` | android_app/jni/jpeg8d/jchuff.c:1352-1363 | the loop finds its prefix every time and ends with no code longer than 16 bits |
| `HuffLimit.DropLast` | android_app/jni/jpeg8d/jchuff.c:1365-1368 | one code of the longest length still in use is given up |
| `HuffGenerate.HuffSlot.ListSymbols` | android_app/jni/jpeg8d/jchuff.c:1373-1385 | exactly the symbols with a code are listed, by optimal code size and then by value |
| `HuffGenerate.TableIsLegal` | android_app/jni/jpeg8d/jchuff.c:1341-1371 | whatever the counts, the final counts are a legal table: at most 16 bits, no code of all ones, one code for each symbol listed, no symbol twice |
| `HuffGenerate.NoLongerThanOptimal` | android_app/jni/jpeg8d/jchuff.c:1373-1385 | when no optimal size exceeds 16, no symbol's code is longer than its optimal size, although sizes are not looked at again after the adjustment |
| `HuffGenerate.HuffSlot.GenOptimalTable` | android_app/jni/jpeg8d/jchuff.c:1255-1389 | the table is the optimal code for the counts limited to 16 bits, legal, with codes for exactly the symbols counted; it fails exactly when an optimal size exceeds 32 bits, which takes 9,227,465 symbols |
| `HuffTables.MakeCDerived` | android_app/jni/jpeg8d/jchuff.c:160-246 | accepts exactly the tables with a legal tree, at most 256 symbols, and symbols distinct and in range; the derived table gives each symbol its canonical code and size, and all others none |
| `HuffTables.MakeDDerived` | android_app/jni/jpeg8d/jdhuff.c:322-440 | accepts exactly the tables with a legal tree, at most 256 symbols, and DC symbols up to 15; the search and lookahead tables are those of the canonical codes |
| `HuffCode.PrefixFree` | android_app/jni/jpeg8d/jchuff.c:203-221 | no code of a legal table is a prefix of another |
| `HuffCode.SearchFindsCode` | android_app/jni/jpeg8d/jdhuff.c:591-627 | the bit-by-bit search stops at the code of a symbol, on any string that starts with it |
| `HuffCode.SentinelStops` | android_app/jni/jpeg8d/jdhuff.c:605-624 | the sentinel stops the search at 17 bits on any input |
| `HuffCode.LookaheadHit` | android_app/jni/jpeg8d/jdhuff.c:404-420 | a hit in the lookahead table is what the bit-by-bit search finds |
| `HuffCode.LookaheadMiss` | android_app/jni/jpeg8d/jdhuff.c:168-190 | after a miss the search may start at nine bits |
| `HuffBits.ExtendInverts` | android_app/jni/jpeg8d/jdhuff.c:565-580 | extending the magnitude bits written for a value gives the value back |
| `HuffWriter.HuffWriter.EmitBits` | android_app/jni/jpeg8d/jchuff.c:305-382 | the low bits are appended to the bits written; whole bytes go out, stuffed |
| `HuffWriter.HuffWriter.FlushBits` | android_app/jni/jpeg8d/jchuff.c:385-402 | the last byte is filled up with ones and the buffer is emptied |
| `HuffReader.BitReader.FillBitBuffer` | android_app/jni/jpeg8d/jdhuff.c:464-562 | the bits ahead stay the same; it fails only when bytes have yet to arrive, and makes up zeros only after the segment's end |
| `HuffReader.BitReader.SlowDecode` | android_app/jni/jpeg8d/jdhuff.c:591-627 | decodes the symbol that the bits ahead start with, from any starting length that no shorter code matches |
| `HuffReader.BitReader.HuffDecode` | android_app/jni/jpeg8d/jdhuff.c:168-190 | decodes the symbol that the bits ahead start with and moves past its code, by lookahead or by search; or suspends |
| `HuffReader.BitReader.NextMarker` | android_app/jni/jpeg8d/jdmarker.c:910-954 | finds the next marker past whatever stands before it; what is skipped stays skipped when bytes run out |
| `HuffEncoder.HuffEntropyEncoder.EmitEobrun` | android_app/jni/jpeg8d/jchuff.c:458-482 | the pending run and its correction bits are written, and none is pending after |
| `HuffEncoder.HuffEntropyEncoder.AcFirstBlock` | android_app/jni/jpeg8d/jchuff.c:627-729 | what has been written and what is pending, with the blocks to come, is the coding of the band of the whole segment |
| `HuffEncoder.HuffEntropyEncoder.AcRefineBlock` | android_app/jni/jpeg8d/jchuff.c:785-910 | the same for a refinement, with correction bits buffered behind a pending run |
| `HuffEncoder.HuffEntropyEncoder.PutBlock` | android_app/jni/jpeg8d/jchuff.c:540-619 | a block in the modes coded block by block: its symbols are appended, and a coefficient out of range is an error exactly then |
| `HuffEncoder.CountBlock` | android_app/jni/jpeg8d/jchuff.c:1121-1188 | counts exactly the symbols that coding the block would write |
| `HuffEncoder.HuffEntropyEncoder.EncodeMcu` | android_app/jni/jpeg8d/jchuff.c:1015-1065 | in every mode the MCU is added to the segment, or to a new one after a restart marker exactly when the interval is used up |
| `HuffEncoder.HuffEntropyEncoder.EmitRestart` | android_app/jni/jpeg8d/jchuff.c:486-532 | a pending run is written, the segment is padded and ended by the next restart marker, and predictions start over |
| `HuffEncoder.HuffEntropyEncoder.FinishPass` | android_app/jni/jpeg8d/jchuff.c:1072-1104 | the last segment is completed: the output is every segment, coded and stuffed, with its markers |
| `HuffEncodeScan.CodeScan` | android_app/jni/jpeg8d/jchuff.c:1015-1065 | a scan in any of the five modes becomes its segments, each coded with the tables, or its symbols are counted; it fails only for a coefficient out of range or a symbol without a code |
| `HuffBlock.AcHead` | android_app/jni/jpeg8d/jchuff.c:955-1008 | from an index on, the symbols written for a block are: end of block if nothing follows, ZRL if more than fifteen zeros do, and otherwise the run with the category of the next nonzero coefficient |
| `HuffSpectral.FirstBlock` | android_app/jni/jpeg8d/jdhuff.c:765-845 | decoding one block of a first AC scan recovers its band and stands before the next block, inside a run or not |
| `HuffRefineDecode.RefineBlock` | android_app/jni/jpeg8d/jdhuff.c:903-1050 | decoding one block of an AC refinement adds the new bit to every coefficient of the band and stands before the next block |
| `HuffResume.ResumeSame` | android_app/jni/jpeg8d/jdhuff.c:903-1050 | decoding a refined block again after a suspension that kept its corrections and undid its new coefficients gives what decoding it at one go gives |
| `HuffResume.ResumeRunSame` | android_app/jni/jpeg8d/jdhuff.c:1010-1050 | the same for a block inside an end-of-band run |
| `HuffDecoder.GetAc` | android_app/jni/jpeg8d/jdhuff.c:1186-1302 | the AC coefficients of a sequential block, or a suspension; those from the limit on are dropped |
| `HuffDecoder.GetAcFirst` | android_app/jni/jpeg8d/jdhuff.c:765-845 | the band of a block in a first scan and the run it leaves, or a suspension that leaves a block decoding to the same |
| `HuffDecoder.GetAcRefine` | android_app/jni/jpeg8d/jdhuff.c:903-1050 | the refined band, or a suspension that leaves a half-done block from which decoding comes to the same |
| `HuffScanDecoder.HuffScanDecoder.ProcessRestart` | android_app/jni/jpeg8d/jdhuff.c:635-668 | the rest of the segment is thrown away, the expected marker swallowed, and predictions and runs start over; a suspension loses nothing |
| `HuffScanDecoder.HuffScanDecoder.DecodeMcu` | android_app/jni/jpeg8d/jdhuff.c:694-896 | one MCU in any mode, after a due restart: decoded as the bits ahead say, or suspended with nothing lost |
| `HuffRoundTrip.McuDecoded` | android_app/jni/jpeg8d/jdhuff.c:694-896 | where a coded MCU is ahead, decoding takes its blocks from the precision before the scan to that of the scan, leaves the coefficients outside the band alone, and stands before the next MCU; DC scans do so block by block, whatever the other blocks held |
| `HuffDecodeScan.DecodeScan` | android_app/jni/jpeg8d/jdhuff.c:1058-1302 | from coded segments that arrive in any pieces, in any of the five modes, every MCU is recovered on top of what earlier scans left, and coefficients outside a progressive scan's band stay as they were |
| `HuffScanRoundTrip.RoundTrip` | android_app/jni/jpeg8d/jdhuff.c:1058-1302 | coding a scan with tables that are acceptable and have the codes it needs, in the slots it uses, and decoding it from pieces, takes every coefficient to the scan's precision; only restart markers in the bytes read as markers |
| `HuffSlots.WithinSegment` | android_app/jni/jpeg8d/jchuff.c:1498-1542 | the symbols of a segment in range name only the slots for which start_pass derives tables |
| `HuffSlots.DeriveTables` | android_app/jni/jpeg8d/jchuff.c:1498-1542 | start_pass of the encoder: succeeds exactly when the tables in the slots the scan uses are legal, and derives those |
| `HuffSlots.DeriveForDecoder` | android_app/jni/jpeg8d/jdhuff.c:1375-1433 | start_pass of the decoder: the same for what the decoder asks of the tables the scan uses |
| `HuffSlots.UsedCodes` | android_app/jni/jpeg8d/jchuff.c:1498-1542 | what the other slots hold makes no difference: a scan in range has a code for every symbol, and is coded in some bytes, exactly when that is so with those slots empty |
| `HuffTwoPass.GatheredIsCountable` | android_app/jni/jpeg8d/jchuff.c:1196-1225 | the counts of a scan's table slots are countable: at least one symbol, at most 254, below the limit of the merge loop |
| `HuffTwoPass.FinishPassGather` | android_app/jni/jpeg8d/jchuff.c:1396-1441 | every table the scan uses is built once, and the others stay as they were; it fails exactly when some slot of the scan has an optimal size above 32 bits |
| `HuffTwoPass.BuiltCovers` | android_app/jni/jpeg8d/jchuff.c:1196-1225 | with the tables built from its counts every symbol of the scan has a code |
| `HuffTwoPass.OptimizedScan` | android_app/jni/jpeg8d/jchuff.c:1396-1441 | gathering, building and writing never meets a symbol without a code: the scan is written with the optimal tables for its symbols, tables of other slots kept, unless a coefficient is out of range, or an optimal size exceeds 32 bits, which is exactly characterised and takes 9,227,465 symbols |
| `HuffScanRoundTrip.OptimizedRoundTrip` | android_app/jni/jpeg8d/jchuff.c:1396-1441 | the same, with the bytes read back in pieces to the scan's precision, and only restart markers in them reading as markers |
| `CoefPlaces.CompShown` | android_app/jni/jpeg8d/jdcoefct.c:272-286 | the blocks that consume_data lists for an MCU are those the coefficient controllers put in it, in the same order, real and dummy |
| `CoefPlaces.BlockIsIn` | android_app/jni/jpeg8d/jdcoefct.c:272-286 | each block of an MCU has a place of its own in the arrays, from which its MCU and its number in it can be told |
| `HuffProgression.ConsumeScan` | android_app/jni/jpeg8d/jdcoefct.c:246-305 | a whole scan consumed into the coefficient arrays: every block of it, and no other, is improved in its place |
| `HuffProgression.BlockStep` | android_app/jni/jpeg8d/jdhuff.c:1350-1371 | a block that holds what the script so far says is what the next scan allowed by the script starts from, and then holds what the longer script says |
| `HuffProgression.OnePass` | android_app/jni/jpeg8d/jchuff.c:1396-1441 | a scan allowed after the script so far, sent with optimised tables and consumed: the arrays then hold what the longer script says; it fails exactly when a coefficient is out of range or a table cannot be built |
| `HuffProgression.ProgressiveRoundTrip` | android_app/jni/jpeg8d/jdcoefct.c:246-305 | an image sent by any legal progressive script, interleaved or not, arrives with every coefficient of every block at the bit position of its last scan; it fails exactly when some scan cannot be encoded |
| `HuffProgression.LastBitIsAll` | android_app/jni/jpeg8d/jdcoefct.c:246-305 | where the script has sent the last bit of every coefficient of a component, its blocks are those of the image |
| `HuffProgression.SimpleRoundTrip` | android_app/jni/jpeg8d/jcparam.c:558-630 | the recommended progression loses nothing: for any number of components every block of the image comes back |
| `ScanScript.CheckProgressive` | android_app/jni/jpeg8d/jcmaster.c:409-455 | a progressive scan passes exactly when its band is in range and it may follow the scans before it; the last bit positions are updated |
| `ScanScript.ValidateScript` | android_app/jni/jpeg8d/jcmaster.c:357-489 | accepts exactly the scripts in which every scan is allowed after those before it and every component gets its DC or all its coefficients; otherwise names the first scan that breaks a rule, and tells whether its components (their number, their order, one sent again) or its progression parameters break it |
| `ScriptLaws.LegalProgressions` | android_app/jni/jpeg8d/jcmaster.c:396-489 | the scan-by-scan check passes exactly the scripts in which DC comes first and every coefficient's scans start at the top and go down one bit at a time |
| `ScriptLaws.BitByBit` | android_app/jni/jpeg8d/jcmaster.c:439-453 | descending by one bit from the first scan fixes Ah and Al of every later scan of the coefficient |
| `ScriptLaws.ReduceScript` | android_app/jni/jpeg8d/jcmaster.c:492-522 | in place: the scans kept are those that start within the block, cut to it, moved to the front |
| `ScriptLaws.ReducedLastAl` | android_app/jni/jpeg8d/jcmaster.c:492-522 | within the smaller block every coefficient ends at the bit position it had; beyond it none is sent |
| `ScriptLaws.ReducedPasses` | android_app/jni/jpeg8d/jcmaster.c:492-522 | the passes over a coefficient within the block keep their number, order and bit positions |
| `ScriptLaws.ReducedIsAccepted` | android_app/jni/jpeg8d/jcmaster.c:492-522 | a reduced progressive script still passes the check, with every band in the block |
| `ScriptLaws.ReducedIsComplete` | android_app/jni/jpeg8d/jcmaster.c:492-522 | and still sends the DC coefficients of every component |
| `ProgressionMonitor.ProgressionStatus.StartPass` | android_app/jni/jpeg8d/jdhuff.c:1309-1371 | for any scan header, one that names a component twice included: refuses exactly the parameters a scan may not start with and warns exactly of a scan out of order; the bit positions seen are recorded |
| `ProgressionMonitor.AcceptedNeverWarns` | android_app/jni/jpeg8d/jdhuff.c:1350-1371 | the decoder starts every scan of an accepted progressive script, reduced to any block size, and never warns |
| `ProgressionMonitor.WarnsUnlessLax` | android_app/jni/jpeg8d/jdhuff.c:1350-1371 | of the scans the decoder starts, the compressor allows exactly those that the decoder neither warns of nor is lax about, which means a finished coefficient sent anew, Ah or Al above 10, or components out of order; so it warns of exactly the refused ones unless it is lax about one and finds nothing else wrong with it |
| `ProgressionMonitor.ResentSlipsThrough` | android_app/jni/jpeg8d/jdhuff.c:1350-1371 | a second DC scan with Ah and Al zero is started without a warning, though the compressor refuses it |
| `ProgressionMonitor.HighAlSlipsThrough` | android_app/jni/jpeg8d/jdhuff.c:1330-1345 | so is a first scan with Al = 11 |
| `ProgressionMonitor.HighAhSlipsThrough` | android_app/jni/jpeg8d/jdhuff.c:1330-1345 | and its refinement with Ah = 11 and Al = 10 |
| `ProgressionMonitor.UnorderedSlipsThrough` | android_app/jni/jpeg8d/jdmarker.c:325-345 | so are components against their order in the frame |
| `ProgressionMonitor.RepeatedSlipsThrough` | android_app/jni/jpeg8d/jdmarker.c:325-345 | and one component named twice |
| `SimpleProgression.MakeSimpleProgression` | android_app/jni/jpeg8d/jcparam.c:558-630 | fills in exactly the announced number of scans, over kept space or new; the script is accepted, progressive, and sends every bit of every coefficient |
| `SimpleProgression.SimpleIsAccepted` | android_app/jni/jpeg8d/jcparam.c:558-630 | the recommended script is accepted for any number of components, in the YCC form or not |
| `PassControl.InitMasterControl` | android_app/jni/jpeg8d/jcmaster.c:806-858 | sets up the passes: rejects exactly the scripts not accepted, forces optimisation for progressive scans and small blocks except in arithmetic coding, and starts with the main pass unless transcoding |
| `PassControl.MasterControl.SelectScanParameters` | android_app/jni/jpeg8d/jcmaster.c:527-568 | the next scan is the script's, or one of all components; it fails exactly when there is no script and there are more than four components |
| `PassControl.MasterControl.PrepareForPass` | android_app/jni/jpeg8d/jcmaster.c:664-739 | starts the pass due, skips the statistics pass of DC refinements, and tells whether this is the last pass; it fails exactly when the scan cannot be selected |
| `PassControl.MasterControl.FinishPass` | android_app/jni/jpeg8d/jcmaster.c:766-799 | moves on to the pass that follows, and to the next scan after an output pass |
| `PassControl.RunPasses` | android_app/jni/jpeg8d/jcmaster.c:664-799 | running passes until the last-pass flag writes exactly the expected log of statistics passes, headers and data; without a script it fails at the first pass, with nothing written, exactly when there are more than four components |
| `PassControl.AllScansSent` | android_app/jni/jpeg8d/jcmaster.c:664-799 | in that log every scan's data is sent once, in script order |
| `PassControl.HeadersInOrder` | android_app/jni/jpeg8d/jcmaster.c:664-799 | in that log the frame header comes once, before any scan header; each scan header is followed by its data; statistics are gathered just before each scan that needs them and no other |
| `Geometry.InitialSetup` | android_app/jni/jpeg8d/jcmaster.c:219-352 | fails exactly on a bad size, block size, component count or sampling factor; otherwise the sizes in blocks and the total of interleaved MCU rows are those of the frame |
| `Geometry.PerScanSetup` | android_app/jni/jpeg8d/jcmaster.c:571-653 | fails exactly on a bad component count or more than ten blocks to an MCU; otherwise MCUs per row, rows and the last column and row of real blocks are those of the scan |
| `Geometry.NestedCeilings` | android_app/jni/jpeg8d/jcmaster.c:326-351 | rounding a component's size up to blocks and then to groups gives as many groups as rounding the image up to MCUs |
| `McuLayout.RowsPartition` | android_app/jni/jpeg8d/jccoefct.c:72-93 | the interleaved MCU rows partition the MCU rows of the scan |
| `McuLayout.BlockRow` | android_app/jni/jpeg8d/jccoefct.c:143-222 | which row of the component a row of blocks in an MCU is, and that it is real exactly when the code takes it as real |
| `CoefController.CoefController.CompressData` | android_app/jni/jpeg8d/jccoefct.c:143-222 | one interleaved MCU row goes to the entropy coder, or as much as it takes; counters say where to go on |
| `CoefController.SendDirectly` | android_app/jni/jpeg8d/jccoefct.c:143-222 | the single-pass controller sends exactly the scan's MCUs of the image padded with dummy blocks, in order, whatever is refused on the way |
| `BufferedController.BufferedController.CompressFirstPass` | android_app/jni/jpeg8d/jccoefct.c:248-332 | loads an interleaved MCU row with its dummy blocks, the same again after a refusal, and sends it |
| `BufferedController.BufferedController.CompressOutput` | android_app/jni/jpeg8d/jccoefct.c:345-400 | sends an interleaved MCU row out of the arrays, or as much as is taken |
| `BufferedController.SendFromBuffer` | android_app/jni/jpeg8d/jccoefct.c:248-400 | the first pass and any later scan out of the arrays send exactly the scan's MCUs of the padded image |
| `TransController.TransController.CompressOutput` | android_app/jni/jpeg8d/jctrans.c:271-345 | sends an interleaved MCU row of the application's arrays with dummy blocks made up at the edges |
| `TransController.Transcode` | android_app/jni/jpeg8d/jctrans.c:271-345 | the transcoder sends exactly the scan's MCUs of the padded image |
| `TransController.ControllersAgree` | android_app/jni/jpeg8d/jctrans.c:271-345 | all the controllers send the same MCUs, those of the padded image in scan order |
| `RowLists.RowLists.MakeFunnyPointers` | android_app/jni/jpeg8d/jdmainct.c:194-234 | the two lists of row pointers: the second with its last two pairs of row groups exchanged, and the first row repeated above the image |
| `RowLists.RowLists.SetWraparoundPointers` | android_app/jni/jpeg8d/jdmainct.c:237-262 | the pointers before and after each list stand for its other end |
| `RowLists.RowLists.SetBottomPointers` | android_app/jni/jpeg8d/jdmainct.c:265-299 | past the last real row the list shows that row again |
| `RowLists.RowLists.Exchange` | android_app/jni/jpeg8d/jdmainct.c:58-110 | what one list shows in its last two row groups, the other keeps while the next iMCU row overwrites the rest |
| `ContextRows.MainController.ProcessData` | android_app/jni/jpeg8d/jdmainct.c:384-447 | keeps the state machine's invariant, under which every row group logged so far is the one expected, through suspensions and full output buffers; makes progress when there is room |
| `ContextRows.WhenRawIsExact` | android_app/jni/jpeg8d/jdmainct.c:265-299 | the postponed row group is shown with rows of the image only if and only if the group after it is whole |
| `ContextRows.PostponedShowsPadding` | android_app/jni/jpeg8d/jdmainct.c:384-447 | a 17-row image with two rows to a row group shows rows 14 and 15 with row 17, which is padding, below them |
| `ContextRows.ShowAll` | android_app/jni/jpeg8d/jdmainct.c:384-447 | every row group is shown once and in order for any suspensions and any room; shown with its true neighbours, edges repeated, if and only if it is not the postponed one or the group after it is whole |
| `ContextPrep.PrepController.PreProcessContext` | android_app/jni/jpeg8d/jcprepct.c:196-261 | keeps the buffer showing the rows around the next one, goes on until the output is full or rows are needed, and pads at top and bottom |
| `ContextPrep.MainController.ProcessData` | android_app/jni/jpeg8d/jcmainct.c:112-158 | the rows said to be consumed are the rows taken, one withheld after a refusal so that the call is repeated; each call gets a row further or uses up a refusal |
| `ContextPrep.WriteScanlines` | android_app/jni/jpeg8d/jcapistd.c:76-111 | rows handed over in any pieces, with any refusals: every row group up to whole iMCU rows is downsampled once, in order, from the rows of the image above, in and below it, edges repeated |
| `MarkerReader.MarkerReader.GetSof` | android_app/jni/jpeg8d/jdmarker.c:237-300 | reads the frame and its components, or suspends, or fails, exactly as the bytes say; allocation survives suspension |
| `MarkerReader.MarkerReader.GetSos` | android_app/jni/jpeg8d/jdmarker.c:303-372 | the same for the scan header, with table numbers stored as they are read |
| `MarkerReader.MarkerReader.GetDac` | android_app/jni/jpeg8d/jdmarker.c:377-414 | the same for conditioning |
| `MarkerReader.MarkerReader.GetDht` | android_app/jni/jpeg8d/jdmarker.c:423-491 | the same for Huffman tables |
| `MarkerReader.MarkerReader.GetDqt` | android_app/jni/jpeg8d/jdmarker.c:494-581 | the same for quantization tables of any block size |
| `MarkerReader.MarkerReader.GetDri` | android_app/jni/jpeg8d/jdmarker.c:584-605 | the same for the restart interval |
| `MarkerReader.MarkerReader.SkipVariable` | android_app/jni/jpeg8d/jdmarker.c:881-898 | passes over a marker's contents, whatever they are |
| `MarkerReader.MarkerReader.NextMarker` | android_app/jni/jpeg8d/jdmarker.c:910-954 | finds the next marker; bytes passed over before the input ends are given up without changing what will be found |
| `MarkerReader.MarkerReader.ProcessMarker` | android_app/jni/jpeg8d/jdmarker.c:1010-1137 | does what the marker's step says, or fails, or leaves on suspension only what reading it again overwrites |
| `MarkerResume.StepResumes` | android_app/jni/jpeg8d/jdmarker.c:423-605 | a marker routine called again after suspending, on what it left, comes to the end it would have come to |
| `MarkerReader.MarkerReader.ReadMarkers` | android_app/jni/jpeg8d/jdmarker.c:993-1143 | whatever arrives later, what it returns is what reading all the input at once comes to; and a suspension changes nothing about that |
| `MarkerWriter.MarkerWriter.EmitDqt` | android_app/jni/jpeg8d/jcmarker.c:144-182 | a table is sent once, with the precision it needs, and a reader of it then has the entries that blocks use |
| `MarkerWriter.MarkerWriter.EmitDht` | android_app/jni/jpeg8d/jcmarker.c:185-220 | a table is sent once, and a reader of it then has it |
| `MarkerWriter.MarkerWriter.EmitDac` | android_app/jni/jpeg8d/jcmarker.c:223-269 | the conditioning the scan uses, in one marker; a reader of it then has it |
| `MarkerWriter.MarkerWriter.WriteMarker` | android_app/jni/jpeg8d/jcapimin.c:199-217 | a marker of the application's own leads a reader to the same state; longer than 65533 bytes is an error |
| `MarkerWriter.MarkerWriter.WriteFrameHeader` | android_app/jni/jpeg8d/jcmarker.c:511-566 | fails exactly on a missing table or a side above 65535; otherwise a reader has the whole frame, baseline exactly when it is one, and every quantization table |
| `MarkerWriter.MarkerWriter.WriteScanHeader` | android_app/jni/jpeg8d/jcmarker.c:575-612 | fails exactly on a missing Huffman table; otherwise a reader reaches the scan with its parameters, its restart interval and the tables it uses, sent earlier or now |
| `MarkerRoundTrip.FileRoundTrip` | android_app/jni/jpeg8d/jdmarker.c:993-1143 | a whole file: SOI, application markers, frame header, any number of scans with tables sent once, EOI; in any pieces the reader has at each scan all that was set for it, including sampling factors and table numbers, stands at the scan's first byte, and ends at EOI |
| `HuffFile.ToldAgrees` | android_app/jni/jpeg8d/jdmarker.c:304-371 | what a reader has been told by the header of a Huffman-coded scan gives the decoder the encoder's scan parameters, and its tables in the slots the scan uses |
| `HuffFile.HuffmanFileRoundTrip` | android_app/jni/jpeg8d/jdmarker.c:993-1143 | a whole file of Huffman-coded scans, markers and data, read back in any pieces and decoded with nothing but what the markers said: every scan takes its blocks to its precision; writing fails exactly for oversized extras or frames and missing tables |

## Findings

Three places where the code does not do what one would expect of it. In each the code is modelled as it is, with an input
that shows the difference and the exact condition under which the expectation holds.

| expectation | where it fails | exact condition |
|---|---|---|
| the context rows handed to the upsampler are rows of the image, its edge rows repeated | the row group postponed to the last iMCU row is shown before `set_bottom_pointers` has run (`jdmainct.c:384-447`), so a row below it may be padding: `ContextRows.PostponedShowsPadding`, 17 rows with two rows to a group | it is not the postponed row group, or the group after it is whole, `(n + 2) * rg <= height`: `ContextRows.ShowAll`, both ways |
| the decoder warns of exactly the progressive scans that the compressor refuses | it starts without a warning what the compressor refuses: a coefficient already sent to its last bit sent again with Ah = 0, `ProgressionMonitor.ResentSlipsThrough`; Al from 11 to 13, `HighAlSlipsThrough`, and Ah above 10, `HighAhSlipsThrough` (`jdhuff.c:1330-1369`); components out of the frame's order, `UnorderedSlipsThrough`, or named twice, `RepeatedSlipsThrough` (`jdmarker.c:325-345`) | the scan is none of these (`Lax`), or something else in it is out of order: `ProgressionMonitor.WarnsUnlessLax`, both ways, for every scan the decoder starts; for scripts the compressor accepts nothing is lost, `AcceptedNeverWarns` |
| every DC difference the arithmetic encoder codes is decoded | the decoder gives up at a magnitude above 2^15 (`jdarith.c:549-556`), which differences of 16-bit coefficients can reach though 8-bit samples cannot: `ArithRoundTrip.LargeStepIsLost`, DC values -2 and 32767 | no difference in the restart interval up to that MCU is above 2^15: `ArithRoundTrip.RoundTrip`, both ways for each MCU, and `KeptWhenFits` for the whole scan; `ArithBlockCoder.GetDc` for one difference |

## Left out

- Memory management, input and output managers, error text, trace messages and warnings that only print.
- The DCT and its inverse, colour conversion, upsampling, downsampling and quantization of samples: a block or a sample row
  is a value or a number, and the DCT of a position is a parameter.
- The progressive modes of the arithmetic coder (`encode_mcu_DC_first` and the like); its sequential mode is modelled, with the
  statistics of all tables in one array of bins, and all but the fixed bin cleared at a restart.
- Recovery after a restart marker with the wrong number (`jpeg_resync_to_restart`): the model stops there.
- Suspension of output: an encoder whose destination is full gives up the MCU and repeats it.
- Integer widths where no value can reach them: counters, bit positions and the C and A registers are integers with the
  bounds that the 32-bit registers need proved. Symbol counts are below 10^9, which the merge loop takes as infinite.
- HuffGenerate.HuffSlot.GenOptimalTable: asks for 1 to 254 symbols in use, the most a coder counts; a table for no symbols
  or for 255 or more is not modelled.
- HuffWriter.HuffWriter.EmitBits: combines the new bits with the buffer by addition of numbers that do not overlap, for the OR of the code.
- The eight Huffman table slots are a sequence in which an unused slot is an empty table; entries of `huffval` beyond the
  symbols counted are whatever they were.
- HuffDecoder.GetAc: one loop with a limit stands for the two loops that store coefficients and skip the rest.
- Tables regenerated for each scan by two-pass optimisation, with `sent_table` cleared, while headers are written:
  `MarkerRoundTrip` and `HuffFile` take tables that stay the same from scan to scan.
- MarkerRoundTrip.FileRoundTrip: takes the length of a scan's data from the scan, and keeps the number of the restart marker due next in the entropy
  decoder only.
- MarkerReader.MarkerReader.SkipVariable: waits for a segment it passes over to arrive; a source manager that counts bytes still to be skipped comes to the same.
- What APP0 and APP14 say (JFIF and Adobe), markers saved for the application, and the compressor's own JFIF and Adobe headers.
- The three marker searches, in the arithmetic decoder, the Huffman decoder and the marker reader, each work on the input state
  of their own class, as do the restart routines that call them.
- Scaled decoding sizes, smoothing of blocks in the decoder, and the output side of its coefficient controller.
- HuffProgression.ConsumeScan: goes through the MCU rows of the scan one after the other, without the iMCU rows that
  bound how much of an array is in memory at a time.
- HuffProgression.ProgressiveRoundTrip: takes the layout of each scan as `Geometry.PerScanSetup` gives it, and scans of fewer than
  10^9 symbols, as the merge loop does.
- PassControl.RunPasses: takes it that the components of each scan fit an MCU, which `Geometry.PerScanSetup` decides.
- HuffSlots.DeriveTables: a slot that was never set is an empty table, whose lack of codes shows at its first symbol; start_pass reports it at once.
- HuffFile.HuffmanFileRoundTrip: decodes the data of each scan with a marker and bytes of any kind behind it; in the file
  the next header stands there.
- The simple main and preprocessing controllers without context rows.
