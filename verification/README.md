# libjpeg-turbo's entropy coding and the UVC preview pipeline, verified

A Dafny model of two parts of libuvccamera's native code: the JPEG compressor and the
entropy coders of libjpeg-turbo 1.4.0, and the frame hand-off between the threads of
`UVCPreview`. Code that works by changing things in place is modelled by classes, arrays
and loops; each such method is proved against a specification function, and what the
specification means is proved by lemmas about it.

`dafny verify dfyconfig.toml` checks the whole project.

## What is proved

**Arithmetic coding.** `IntervalCoder` defines coding as exact arithmetic on an interval
of numbers: `Code` narrows it by one decision, `Inside` says that a byte sequence, read as
a binary fraction, lies in it. `ArithEncoder` and `ArithDecoder` are the two register
machines. The encoder's invariant says that bytes written, pending zeros, the buffered
byte, stacked 0xFF bytes and the C register spell exactly the low end of the interval; the
decoder's says that its register holds the code read so far minus that low end, shifted.
`ArithRoundTrip` ties them together, and shows that the end of a segment is the shortest
byte sequence that spells the value in the interval with the most trailing zero bits.
`CoefficientModel`, `ArithMcuEncoder` and `ArithMcuDecoder` add the binarisations of
sequential and progressive scans as lists of decisions, which `ArithmeticFormat` states
once more coefficient by coefficient, with the numbers of their bins; `ArithScan` and
`ScanTransmission` conclude that a scan decodes to what was sent, and exactly when the
decoder refuses it. `RestartIntervals`, `RestartSegments` and `ArithRestarts` add
restarts: a scan is divided into intervals and spliced from segments and their markers,
and an error in one interval costs only the rest of it.

**Progressive scripts.** `ScriptValidation` runs the checks of `validate_script`,
`ScanScript` defines what a script sends of each coefficient and proves that any accepted
script leaves the decoder with exactly those bits, so a coefficient sent down to bit 0 is
restored. `ScanTransmission.TransmitProgressive` and
`ProgressiveTransmission.TransmitProgressive` are one step of that induction through the
real arithmetic and Huffman coders, and `ScriptTransmission.TransmitScript` is the whole
of it: for every accepted script, either coder and every restart setting, each scan is
laid out anew by `ImageGeometry`, its MCUs are sent from the stored blocks (`CoefBuffer`),
coded, decoded over the blocks that the decoder's arrays hold (`DecodedPicture`), and
stored there again. Huffman tables are given, or made from each scan's own statistics.

**Huffman coding.** `CanonicalCode` characterises the code lengths that a table may have
(a Kraft sum) and proves the codes prefix-free; `HuffmanTables` builds the encoder's and
decoder's derived tables, `BitWriter` and `BitReader` are the bit buffers with stuffing,
`HuffmanEncoder`, `HuffmanDecoder` and `HuffmanTransmission` the MCU coders with restarts.
`OptimalTable`, `HuffmanTree` and `HuffmanOptimality` follow `jpeg_gen_optimal_table`: the
linked lists are Huffman trees, their lengths minimise sum(freq * size) over every prefix
code, and the length limit keeps the code complete; `SymbolList` follows the lengths into
the table, where no symbol gets a longer code than its optimal one unless a length had to
be limited. `HuffmanDepth` bounds their depth: a length above 32 takes frequencies that
add up to the 35th Fibonacci number, so shorter scans never meet the error.
`HuffmanStatistics` and `HuffmanOptimization` join the statistics pass to the output pass:
tables made from the counts have a code for everything that is sent. `ProgressiveModel` to
`ProgressiveTransmission` do the same for progressive scans, where end-of-band runs and
buffered correction bits delay what a block contributes; `ProgressiveRestarts` adds the
restarts, before which a pending run is sent, and `ProgressiveOptimization` the statistics
pass. `HuffmanFormat` states what the coders write without the functions that build it:
codes, extra bits, runs of zeros, predictions, restarts and runs of ends of band.

**Compression controllers.** `ImageGeometry` (sizes and MCU layout), `Preprocessing` (the
ring of row groups read through aliased pointers), `MainController` (row counters and
suspension), `McuTraversal`, `CoefController` and `CoefBuffer` (MCU traversal, single-pass
and from stored coefficients) and `Quantization` (division by a reciprocal).
`ImageCompression` puts them together: whatever the batches and suspensions, the encoder
gets the MCUs of one image, the one whose rows are clamped at the border, each real block
once; through the arithmetic coder, and through the Huffman coder with tables made from
the image's own statistics, every quantised block comes back at its place.

**Frames.** `ObjectArrays` is the pointer array, `FrameHandoff` the shared state and the
mutex-protected sections as functions on it (frames are freed only when the pool holds 6
and allocated only when it is empty), `FrameSections` the same sections as code on the
arrays, and `FrameSession` four threads whose steps interleave in any order: frames are conserved,
pictures stay in order, and from every state some schedule ends all threads with every
frame returned. Run without interruption, the steps of a section are the section of
`FrameSections`.

## Where the code differs from what it says

- `compute_reciprocal` (jcdctmgr.c:171-203) stores the shift -1 for the divisor 1, and
  `quantize` shifts by it. `Quantization.ShiftDefinedExactly` says that this is the only
  such divisor, `IslowDivisorExactly` that the slow DCT never reaches it, and
  `IfastDivisorExactly` for which quantiser values the fast DCT does, or divides by 0;
  `IfastDivisorFails` gives the values 1 and 8192.
- `addCaptureFrame` (UVCPreview.cpp:703-715) neither keeps nor recycles a frame that
  arrives when the preview is no longer running. `FrameSession.Session.Step` says that
  this is the only step that drops a frame, and `LosesFrame` is a run that does.
- The decoder of sequential arithmetic scans accepts DC differences up to 2^15 in
  magnitude, while the encoder can send larger ones. `TransmitSequential` states exactly
  when the scan decodes, and `SmallDcDecodable` that 8-bit samples never meet the limit;
  `FarApartFails` is a scan of two blocks, with DC values 32767 and -32768, that does.

## Model

| member | source | states |
|---|---|---|
| ArithRoundTrip.EncodeThenDecode | libuvccamera/src/main/jni/libjpeg-turbo-1.4.0/jcarith.c:134-313 | for every sequence of decisions and any marker after the bytes, the decoder returns the same bits and ends with the encoder's bins; every 0xFF in the segment is followed by 0x00 and a final 0x00 only stands behind an 0xFF |
| ArithRoundTrip.TerminatorHasMostTrailingZeros | libuvccamera/src/main/jni/libjpeg-turbo-1.4.0/jcarith.c:144-154 | the terminating value lies in [c, c + a - 1] and no value of the interval has more trailing zero bits |
| ArithRoundTrip.ShortestSpelling | libuvccamera/src/main/jni/libjpeg-turbo-1.4.0/jcarith.c:172-194 | the bytes written at the end are the shortest byte sequence that spells the terminating value: any other is longer by zero bytes |
| ArithRoundTrip.TerminatorIsInside | libuvccamera/src/main/jni/libjpeg-turbo-1.4.0/jcarith.c:144-194 | bytes that spell the terminating value, continued with zeros, denote a number inside the final interval |
| ArithRoundTrip.DecodeUndoesRun | libuvccamera/src/main/jni/libjpeg-turbo-1.4.0/jdarith.c:107-184 | a number inside the interval of a run decodes to the bits of the run and leaves the same bins |
| IntervalCoder.CodeKeeps | libuvccamera/src/main/jni/libjpeg-turbo-1.4.0/jcarith.c:220-262 | a number stays inside the interval after a decision just when it was inside before and the decoder's comparison gives that decision: encoder and decoder split the interval alike |
| IntervalCoder.RunNests | libuvccamera/src/main/jni/libjpeg-turbo-1.4.0/jcarith.c:220-313 | a number inside the interval after many decisions is inside every earlier interval |
| IntervalCoder.NormaliseKeepsNumbers | libuvccamera/src/main/jni/libjpeg-turbo-1.4.0/jcarith.c:263-312 | renormalisation scales the interval and changes no number in it |
| IntervalCoder.UnpackedFields | libuvccamera/src/main/jni/libjpeg-turbo-1.4.0/jaricom.c:29-41 | the packed table word gives back Qe, the next states and the sense switch, and XOR with them is the state transition that `BinAfter` describes |
| IntervalCoder.XorSenseIsXor | libuvccamera/src/main/jni/libjpeg-turbo-1.4.0/jcarith.c:246-261 | on bytes the transition is the source's (sv & 0x80) ^ word, in bit operations |
| IntervalCoder.BinAfter | libuvccamera/src/main/jni/libjpeg-turbo-1.4.0/jcarith.c:233-262 | after a less probable symbol the bin's state is Next_Index_LPS and its sense flips just when Switch_MPS is 1; after a more probable one the state is Next_Index_MPS with the same sense if A fell below 0x8000, and the bin is unchanged if not; no other bin changes |
| IntervalCoder.CodeNarrows | libuvccamera/src/main/jni/libjpeg-turbo-1.4.0/jcarith.c:233-312 | which part of the interval a decision leaves, with conditional exchange, and that it is doubled until A is at least 0x8000 |
| AritTable.Unpack | libuvccamera/src/main/jni/libjpeg-turbo-1.4.0/jaricom.c:29-41 | every packed row of the state table unpacks to its fields |
| ArithEncoder.Encoder.ArithEncode | libuvccamera/src/main/jni/libjpeg-turbo-1.4.0/jcarith.c:220-313 | one call of arith_encode moves the exact interval and the bins as the interval coder says, which `BinAfter` and `CodeNarrows` pin down |
| ArithEncoder.Encoder.ByteOut | libuvccamera/src/main/jni/libjpeg-turbo-1.4.0/jcarith.c:266-307 | the bytes written, the pending zeros, the buffer and the stacked 0xFF bytes denote the old number times 256 plus the byte with its carry; no carry arrives before the first byte, and after a carry the new byte is at most 0x1F |
| ArithEncoder.Encoder.ShiftOut | libuvccamera/src/main/jni/libjpeg-turbo-1.4.0/jcarith.c:263-312 | a round of renormalisation doubles the exact interval, whatever moves out of C, and keeps C + A within the register |
| ArithEncoder.Encoder.PropagateCarry | libuvccamera/src/main/jni/libjpeg-turbo-1.4.0/jcarith.c:268-283 | a carry is added to the bytes not yet settled and turns stacked 0xFF bytes into pending zeros |
| ArithEncoder.Encoder.SettlePending | libuvccamera/src/main/jni/libjpeg-turbo-1.4.0/jcarith.c:289-305 | pending zeros and stacked bytes are written out in order, with stuffing, when no carry can reach them |
| ArithEncoder.Encoder.Renormalise | libuvccamera/src/main/jni/libjpeg-turbo-1.4.0/jcarith.c:263-312 | the loop ends with A at least 0x8000 and the normalised interval |
| ArithEncoder.Encoder.FinishPass | libuvccamera/src/main/jni/libjpeg-turbo-1.4.0/jcarith.c:134-195 | the segment spells the terminating value of the interval and ends without a zero byte of its own |
| ArithEncoder.Encoder.constructor | libuvccamera/src/main/jni/libjpeg-turbo-1.4.0/jcarith.c:823-900 | start_pass begins with the whole interval, ct = 11 and empty bins |
| ArithDecoder.Decoder.ArithDecode | libuvccamera/src/main/jni/libjpeg-turbo-1.4.0/jdarith.c:107-184 | for every byte sequence with a marker ahead the call ends, returns the comparison of the code number with the split of the interval, and follows the encoder's interval and bins, which `BinAfter` and `CodeNarrows` pin down |
| ArithDecoder.Decoder.Refill | libuvccamera/src/main/jni/libjpeg-turbo-1.4.0/jdarith.c:113-150 | after renormalisation 0x8000 <= a <= 0x10000, 0 <= ct <= 7 and 0 <= c < a << ct |
| ArithDecoder.Decoder.ShiftIn | libuvccamera/src/main/jni/libjpeg-turbo-1.4.0/jdarith.c:113-150 | the register holds the code prefix minus the interval base, shifted by ct; the first bytes are loaded by the same loop |
| ArithDecoder.Decoder.NextData | libuvccamera/src/main/jni/libjpeg-turbo-1.4.0/jdarith.c:117-142 | data bytes come unstuffed, and zeros after a marker |
| ArithDecoder.RegisterCompares | libuvccamera/src/main/jni/libjpeg-turbo-1.4.0/jdarith.c:158-183 | comparing the register with a split is comparing the whole code number with it |
| ArithDecoder.PrefixCompares | libuvccamera/src/main/jni/libjpeg-turbo-1.4.0/jdarith.c:117-142 | zeros supplied past the end of the segment do not change any comparison |
| CoefficientModel.AreasAreDisjoint | libuvccamera/src/main/jni/libjpeg-turbo-1.4.0/jcarith.c:40-60 | statistics bins of different tables, of DC and AC areas and the fixed bin never coincide |
| CoefficientModel.AcBinsFit | libuvccamera/src/main/jni/libjpeg-turbo-1.4.0/jcarith.c:487-540 | the bins of an AC coefficient and of its magnitude do not overlap and end at index 244 of the table's 256 |
| ArithmeticFormat.StartIs | libuvccamera/src/main/jni/libjpeg-turbo-1.4.0/jcarith.c:855-926 | coding starts with the whole interval, all statistics 0 but the fixed bin at state 113, and DC prediction from 0 in the zero category |
| ArithmeticFormat.DcDecisionsAre | libuvccamera/src/main/jni/libjpeg-turbo-1.4.0/jcarith.c:396-446 | the decisions of a DC value with their bin numbers: nonzero, sign, larger than 1, then one decision per doubling from bin 20 on and the low bits 14 bins further |
| ArithmeticFormat.ConditioningIs | libuvccamera/src/main/jni/libjpeg-turbo-1.4.0/jcarith.c:433-437 | section F.1.4.4.1.2: the zero category reaches up to 2^(L - 1), the small ones up to 2^U, and the next contexts are 0, 4, 8, 12 and 16 |
| ArithmeticFormat.PredictionIs | libuvccamera/src/main/jni/libjpeg-turbo-1.4.0/jcarith.c:396-438 | the prediction of a component after some blocks is the DC value and the category of its last block among them |
| ArithmeticFormat.BandIs | libuvccamera/src/main/jni/libjpeg-turbo-1.4.0/jcarith.c:473-547 | an AC band, coefficient by coefficient, with bin numbers: that the band goes on after each nonzero coefficient, whether the next is nonzero, its sign with even odds, its size, and one end of band if it comes before Se |
| ArithmeticFormat.RefinementIs | libuvccamera/src/main/jni/libjpeg-turbo-1.4.0/jcarith.c:608-675 | an AC refinement block, coefficient by coefficient: no end-of-band decision up to the last coefficient sent before, correction bits for those, and zero, new and sign for the others |
| CoefficientModel.ApproxIsNearest | libuvccamera/src/main/jni/libjpeg-turbo-1.4.0/jcarith.c:484-511 | what a scan leaves of a coefficient is the multiple of 2^Al next to it, on the side of zero |
| ArithMcuEncoder.DcLadderFits | libuvccamera/src/main/jni/libjpeg-turbo-1.4.0/jcarith.c:425-440 | the bins of a DC magnitude end at index 48 of the table's 64 for differences that the decoder accepts, and at 49 for all that the encoder can send |
| ArithMcuEncoder.McuEncoder.PutDc | libuvccamera/src/main/jni/libjpeg-turbo-1.4.0/jcarith.c:388-447 | a DC difference is sent as the decisions of its category and magnitude, and the prediction and context are updated |
| ArithMcuEncoder.McuEncoder.PutAc | libuvccamera/src/main/jni/libjpeg-turbo-1.4.0/jcarith.c:455-547 | an AC band is sent as the decisions of figures F.5 and G: end of block, zero runs, sign and magnitude |
| ArithMcuEncoder.McuEncoder.PutAcRefine | libuvccamera/src/main/jni/libjpeg-turbo-1.4.0/jcarith.c:589-675 | a refinement band is sent as its end-of-block, correction and new-coefficient decisions |
| ArithMcuEncoder.McuEncoder.EncodeMcu | libuvccamera/src/main/jni/libjpeg-turbo-1.4.0/jcarith.c:702-816 | between restarts, an MCU is sent as the decisions of its blocks in order, in every mode |
| ArithMcuDecoder.McuDecoder.GetDc | libuvccamera/src/main/jni/libjpeg-turbo-1.4.0/jdarith.c:261-312 | on the decisions of a DC value the decoder finds the value, and reports an error just when the difference exceeds 2^15 |
| ArithMcuDecoder.McuDecoder.GetAc | libuvccamera/src/main/jni/libjpeg-turbo-1.4.0/jdarith.c:322-390 | on the decisions of an AC band the decoder rebuilds the band |
| ArithMcuDecoder.McuDecoder.GetAcRefine | libuvccamera/src/main/jni/libjpeg-turbo-1.4.0/jdarith.c:429-490 | on the decisions of a refinement band every coefficient of the band gains its next bit |
| ArithMcuDecoder.McuDecoder.GetLadder | libuvccamera/src/main/jni/libjpeg-turbo-1.4.0/jdarith.c:278-303 | unary category and magnitude bits of a number below 2^15 read back to the number; larger ones are an error |
| ArithMcuDecoder.McuDecoder.DecodeMcu | libuvccamera/src/main/jni/libjpeg-turbo-1.4.0/jdarith.c:514-615 | between restarts, on the decisions of an MCU the decoder stays in step with the encoder's bins and predictions and receives every block |
| ArithScan.DecodeScan | libuvccamera/src/main/jni/libjpeg-turbo-1.4.0/jdarith.c:514-615 | from the bytes of one segment every block takes the step of the scan |
| ScanTransmission.TransmitSequential | libuvccamera/src/main/jni/libjpeg-turbo-1.4.0/jdarith.c:514-615 | sequential MCUs of one segment come back unchanged, exactly when no DC difference exceeds 2^15 |
| ScanTransmission.SmallDcDecodable | libuvccamera/src/main/jni/libjpeg-turbo-1.4.0/jdarith.c:497-560 | DC values within 2^14 never trip the decoder's error |
| ScanTransmission.FarApartFails | libuvccamera/src/main/jni/libjpeg-turbo-1.4.0/jdarith.c:278-303 | a scan of two MCUs whose DC values are 32767 and -32768 can be sent and cannot be decoded |
| ScanTransmission.TransmitScan | libuvccamera/src/main/jni/libjpeg-turbo-1.4.0/jdarith.c:258-490 | one segment of a scan of any mode gives the decoder exactly the next approximation of its band |
| ScanTransmission.TransmitProgressive | libuvccamera/src/main/jni/libjpeg-turbo-1.4.0/jdarith.c:258-490 | one scan that follows what is known takes the decoder from what it knew of every coefficient to what the scan sends; TransmitScript is the whole script |
| ArithRestarts.TransmitScan | libuvccamera/src/main/jni/libjpeg-turbo-1.4.0/jdarith.c:193-223 | a scan in restart intervals, of any mode and any interval: an MCU is received unless a DC difference before it in its own interval, or in it, exceeds 2^15, so an error ends at the next restart |
| ArithRestarts.RestartEncoder.EmitRestart | libuvccamera/src/main/jni/libjpeg-turbo-1.4.0/jcarith.c:320-355 | a restart ends the segment, writes RSTn in turn and starts with empty statistics and predictions |
| ArithRestarts.RestartEncoder.EncodeMcu | libuvccamera/src/main/jni/libjpeg-turbo-1.4.0/jcarith.c:681-816 | an MCU joins its restart interval, after a restart just when the interval is full |
| ArithRestarts.EncodeScan | libuvccamera/src/main/jni/libjpeg-turbo-1.4.0/jcarith.c:681-816 | the output is the stuffed segments with their markers, and each segment holds the decisions of its interval |
| ArithRestarts.RestartDecoder.ProcessRestart | libuvccamera/src/main/jni/libjpeg-turbo-1.4.0/jdarith.c:192-223 | a restart moves to the next segment, whatever was left unread of this one, and forgets statistics, predictions and an error |
| ArithRestarts.RestartDecoder.DecodeMcu | libuvccamera/src/main/jni/libjpeg-turbo-1.4.0/jdarith.c:497-615 | the decoder stays in step through the segments and receives every block of an interval without an error |
| ArithDecoder.Decoder.ReadRestartMarker | libuvccamera/src/main/jni/libjpeg-turbo-1.4.0/jdmarker.c:1129-1160 | the marker met while decoding, or else the next one in the data, is accepted exactly when it is the expected one |
| RestartSegments.NextMarker | libuvccamera/src/main/jni/libjpeg-turbo-1.4.0/jdmarker.c:890-933 | the search skips data, stuffed zeros and padding and finds the marker that ends the segment |
| RestartSegments.SplicedInOrder | libuvccamera/src/main/jni/libjpeg-turbo-1.4.0/jcarith.c:327-330 | the spliced output, read from the front, is the segments in order, each before its marker |
| RestartSegments.MarkersAreNumbered | libuvccamera/src/main/jni/libjpeg-turbo-1.4.0/jcarith.c:327-330 | segment i of the output ends in 0xFF and 0xD0 + i modulo 8 |
| NaturalOrder.TableIsZigzag | libuvccamera/src/main/jni/libjpeg-turbo-1.4.0/jutils.c:55-66 | the natural-order table is the zigzag walk of figure A.6, each index once |
| ScanSetup.OrderIsOnto | libuvccamera/src/main/jni/libjpeg-turbo-1.4.0/jutils.c:55-66 | a table of 64 different indices reaches every coefficient |
| ScriptValidation.ValidateScript | libuvccamera/src/main/jni/libjpeg-turbo-1.4.0/jcmaster.c:164-298 | validate_script accepts exactly the legal scripts, progressive or sequential as the first scan says; `AcceptedProgressive` and `AcceptedSequential` say over the scans what that means |
| ScriptValidation.CheckProgressiveScan | libuvccamera/src/main/jni/libjpeg-turbo-1.4.0/jcmaster.c:208-262 | a scan is accepted exactly if it may follow the scans before it, and then the bit table holds what has been sent; `ScanScript.AcceptedExactly` says over the scans when that is |
| ScriptValidation.CheckCoefficients | libuvccamera/src/main/jni/libjpeg-turbo-1.4.0/jcmaster.c:233-261 | the table of a component is advanced by exactly one bit for the coefficients of the band, or the scan refused as `Follows` says, which `ScanScript.FollowsIs` restates over the scans before it |
| ScanScript.AcceptedExactly | libuvccamera/src/main/jni/libjpeg-turbo-1.4.0/jcmaster.c:203-296 | a script is legal just when every scan is well formed, continues each coefficient one bit below the last scan that carried it (or starts it), follows a DC scan of its component if it is an AC scan, and every component has a DC scan |
| ScanScript.DcComesFirst | libuvccamera/src/main/jni/libjpeg-turbo-1.4.0/jcmaster.c:247 | in an accepted script every AC scan of a component stands behind a DC scan of it |
| ScanScript.AcFirstIsRefused | libuvccamera/src/main/jni/libjpeg-turbo-1.4.0/jcmaster.c:247 | the script that sends the AC coefficients of its component before the DC coefficient is refused |
| ScanScript.ProgressIs | libuvccamera/src/main/jni/libjpeg-turbo-1.4.0/jcmaster.c:248-260 | the bit that a coefficient has reached is the Al of the last scan that carried it, and -1 without one |
| ScriptValidation.CheckSequentialScan | libuvccamera/src/main/jni/libjpeg-turbo-1.4.0/jcmaster.c:263-277 | a component may be sent once |
| ScriptValidation.SequentialExactly | libuvccamera/src/main/jni/libjpeg-turbo-1.4.0/jcmaster.c:263-296 | a sequential script is legal just when every scan is full and no component is sent twice or left out |
| ScanScript.ScriptApproximates | libuvccamera/src/main/jni/libjpeg-turbo-1.4.0/jcmaster.c:203-296 | after any accepted script the iterated scans leave every coefficient known to exactly the bits sent: sign(c) * ((abs(c) >> Al) << Al) for AC and (c >> Al) << Al for DC; TransmitScript takes this through the coders |
| ScanScript.SentToBitZeroIsRestored | libuvccamera/src/main/jni/libjpeg-turbo-1.4.0/jcmaster.c:203-296 | coefficients whose iterated scans reach Al = 0 are restored; TransmitScript takes this through the coders |
| ScanScript.ScanAdvances | libuvccamera/src/main/jni/libjpeg-turbo-1.4.0/jdarith.c:242-490 | one accepted scan takes a block from the old approximation to the new one |
| ScanScript.FloorNextBit | libuvccamera/src/main/jni/libjpeg-turbo-1.4.0/jdarith.c:395-421 | DC refinement: OR-ing the bit into the truncated value gives the next truncation, also for negative values |
| ScanScript.KnownIsNear | libuvccamera/src/main/jni/libjpeg-turbo-1.4.0/jdarith.c:395-490 | what is known of a coefficient after a script is 0, or differs from it by less than 2^pos, from below for DC and from the side of zero for AC |
| ScriptTransmission.TransmitScript | libuvccamera/src/main/jni/libjpeg-turbo-1.4.0/jcmaster.c:164-510 | a script is accepted exactly if validate_script accepts it as progressive; all scans pass exactly when each can be laid out and coded (with tables made from statistics: only if in range, and surely if it also has fewer than 9227464 symbols), and then every coefficient of every block is known to the bit that the script has reached and restored where that is bit 0, with either entropy coder, every restart setting and every suspension pattern; whether a script is accepted is also stated over its scans |
| ScriptTransmission.TransmitOne | libuvccamera/src/main/jni/libjpeg-turbo-1.4.0/jcmaster.c:484-498 | one scan of a script, set up, sent from the stored blocks, coded, decoded and stored: it passes when it can be laid out and coded, and then the picture is known to the scan's bits too |
| ScriptTransmission.LayoutIsSetUp | libuvccamera/src/main/jni/libjpeg-turbo-1.4.0/jcmaster.c:343-425 | per_scan_setup gives every scan of a script the same layout whatever scans came before it |
| ScriptTransmission.KnownPictureIsRestored | libuvccamera/src/main/jni/libjpeg-turbo-1.4.0/jcmaster.c:203-296 | in a picture known to the bits of a script, every coefficient that has reached bit 0 is the original |
| ScriptTransmission.WholeBlockRestored | libuvccamera/src/main/jni/libjpeg-turbo-1.4.0/jcmaster.c:203-296 | a block all of whose coefficients have reached bit 0 is the original block |
| DecodedPicture.GatheredBlock | libuvccamera/src/main/jni/libjpeg-turbo-1.4.0/jdcoefct.c:257-287 | every real block of a component is handed to the entropy decoder in the MCU and at the place where the encoder sends it |
| DecodedPicture.StoreScan | libuvccamera/src/main/jni/libjpeg-turbo-1.4.0/jdcoefct.c:257-297 | after a scan the arrays of its components hold the decoded blocks where they were taken from, and the other arrays are unchanged |
| DecodedPicture.PriorsAreReady | libuvccamera/src/main/jni/libjpeg-turbo-1.4.0/jdcoefct.c:257-288 | the blocks in the arrays are what a refinement scan needs, also beyond the edge of the image, where dummy blocks have been decoded |
| DecodedPicture.PictureAdvances | libuvccamera/src/main/jni/libjpeg-turbo-1.4.0/jdcoefct.c:257-304 | a scan stored in the arrays takes the whole picture from what was known to the bits of the scan |
| CanonicalCode.PrefixFree | libuvccamera/src/main/jni/libjpeg-turbo-1.4.0/jchuff.c:273-299 | no generated code is a prefix of another |
| CanonicalCode.NoCodeIsAllOnes | libuvccamera/src/main/jni/libjpeg-turbo-1.4.0/jchuff.c:273-299 | no generated code consists of ones only |
| CanonicalCode.IndexOfCode | libuvccamera/src/main/jni/libjpeg-turbo-1.4.0/jchuff.c:273-299 | every symbol position has its code, and the code leads back to it |
| CanonicalCode.CodeOfIndex | libuvccamera/src/main/jni/libjpeg-turbo-1.4.0/jchuff.c:273-299 | every code is the code of one of the listed symbol positions |
| CanonicalCode.LegalIffKraft | libuvccamera/src/main/jni/libjpeg-turbo-1.4.0/jchuff.c:251-299 | code generation succeeds exactly when there are at most 256 codes and the Kraft sum leaves the all-ones code free |
| HuffmanFormat.CodesCountUp | libuvccamera/src/main/jni/libjpeg-turbo-1.4.0/jchuff.c:257-275 | figure C.2: the first code is 0, and each further one is the one before it plus 1, with zeros added up to its own length |
| HuffmanTables.GenerateSizes | libuvccamera/src/main/jni/libjpeg-turbo-1.4.0/jchuff.c:251-266 | the size list, or an error exactly when there are more than 256 codes |
| HuffmanTables.GenerateCodes | libuvccamera/src/main/jni/libjpeg-turbo-1.4.0/jchuff.c:273-299 | the canonical codes, or an error exactly when some length has too many |
| HuffmanTables.MakeCDerived | libuvccamera/src/main/jni/libjpeg-turbo-1.4.0/jchuff.c:214-300 | the encoder's table gives every symbol its code; it is refused exactly for illegal lengths, symbols out of range or symbols listed twice |
| HuffmanTables.CodeLimits | libuvccamera/src/main/jni/libjpeg-turbo-1.4.0/jdhuff.c:208-226 | maxcode and valoffset describe the codes of every length, with the sentinel at 17 |
| HuffmanTables.FillLookup | libuvccamera/src/main/jni/libjpeg-turbo-1.4.0/jdhuff.c:228-254 | every entry of the lookahead table agrees with decoding its 8 bits one at a time |
| HuffmanTables.MakeDDerived | libuvccamera/src/main/jni/libjpeg-turbo-1.4.0/jdhuff.c:152-285 | the decoder's table inverts the code; it is refused exactly for illegal lengths or DC symbols above 15 |
| BitWriter.Writer.PutBits | libuvccamera/src/main/jni/libjpeg-turbo-1.4.0/jchuff.c:338-363 | the bits are appended; with at most 15 bits waiting none is lost in the 32-bit buffer |
| BitWriter.Writer.CheckBuf15 | libuvccamera/src/main/jni/libjpeg-turbo-1.4.0/jchuff.c:338-363 | after the check at most 15 bits wait, and whole bytes have been written with stuffing |
| BitWriter.Writer.FlushBits | libuvccamera/src/main/jni/libjpeg-turbo-1.4.0/jchuff.c:452-468 | the last byte is filled with ones |
| BitReader.Reader.FillBitBuffer | libuvccamera/src/main/jni/libjpeg-turbo-1.4.0/jdhuff.c:296-394 | the buffer is loaded with the unstuffed bits that come next, and with zeros past a marker |
| BitReader.Reader.GetBits | libuvccamera/src/main/jni/libjpeg-turbo-1.4.0/jdhuff.h:145-158 | GET_BITS returns the next n bits of the unstuffed segment, most significant first |
| BitReader.Reader.JpegHuffDecode | libuvccamera/src/main/jni/libjpeg-turbo-1.4.0/jdhuff.c:446-482 | the symbol returned is that of the code at the front of the stream, or 0 when there is none, from any min_bits that does not exceed the code's length |
| BitReader.Reader.HuffDecode | libuvccamera/src/main/jni/libjpeg-turbo-1.4.0/jdhuff.h:183-202 | decoding through the lookahead table reads the same symbol as bit-serial decoding |
| BitReader.ReadsCode | libuvccamera/src/main/jni/libjpeg-turbo-1.4.0/jdhuff.c:446-482 | a stream that starts with a symbol's code is read as that symbol |
| BitReader.LookupFinds | libuvccamera/src/main/jni/libjpeg-turbo-1.4.0/jdhuff.c:228-254 | a lookahead entry names exactly the code at the front of the stream |
| BitReader.Reader.ReadRestartMarker | libuvccamera/src/main/jni/libjpeg-turbo-1.4.0/jdmarker.c:1129-1160 | a restart marker is accepted exactly when it is the expected one; the rest of the segment is skipped |
| HuffmanModel.ExtendUndoesExtraBits | libuvccamera/src/main/jni/libjpeg-turbo-1.4.0/jdhuff.c:495-499 | HUFF_EXTEND inverts the encoder's extra bits for every value |
| HuffmanFormat.ExtraBitsComplement | libuvccamera/src/main/jni/libjpeg-turbo-1.4.0/jchuff.c:495-524 | the category of v is its number of bits, a positive v is its own extra bits, and those of -v are their complement |
| HuffmanFormat.RunThenValue | libuvccamera/src/main/jni/libjpeg-turbo-1.4.0/jchuff.c:530-577 | a nonzero coefficient after a run of zeros: one 0xF0 for each 16 zeros, then 16 times the rest plus the category, and the extra bits |
| HuffmanFormat.ZerosToTheEnd | libuvccamera/src/main/jni/libjpeg-turbo-1.4.0/jchuff.c:580-583 | zeros up to the end of the block are the one symbol 0x00, without any 0xF0; nothing follows coefficient 63 |
| HuffmanFormat.DcIsPredicted | libuvccamera/src/main/jni/libjpeg-turbo-1.4.0/jchuff.c:640-649 | a block sends the difference between its DC value and that of the last block of its component before it in the MCU, or the one remembered |
| HuffmanFormat.IntervalsOfScan | libuvccamera/src/main/jni/libjpeg-turbo-1.4.0/jchuff.c:630-661 | a scan of n MCUs has 1 + (n - 1) / r restart intervals, and prediction starts again from 0 exactly at multiples of r |
| HuffmanEncoder.EncodeOneBlock | libuvccamera/src/main/jni/libjpeg-turbo-1.4.0/jchuff.c:477-585 | a block is written as the codes and extra bits of its DC difference and AC run lengths |
| HuffmanEncoder.Encoder.EncodeMcu | libuvccamera/src/main/jni/libjpeg-turbo-1.4.0/jchuff.c:617-667 | an MCU extends what has been sent, after a restart where one is due |
| HuffmanEncoder.Encoder.EmitRestart | libuvccamera/src/main/jni/libjpeg-turbo-1.4.0/jchuff.c:592-609 | a restart flushes, writes RSTn and forgets the DC predictions |
| HuffmanEncoder.Encoder.FinishPass | libuvccamera/src/main/jni/libjpeg-turbo-1.4.0/jchuff.c:674-695 | the output is the stuffed segments with their restart markers |
| HuffmanDecoder.DecodeOneBlock | libuvccamera/src/main/jni/libjpeg-turbo-1.4.0/jdhuff.c:572-614 | a wanted block whose codes come next is rebuilt, and the reader stands behind it |
| HuffmanDecoder.Decoder.DecodeMcu | libuvccamera/src/main/jni/libjpeg-turbo-1.4.0/jdhuff.c:553-616 | the decoder stays in step with the encoder and rebuilds every MCU |
| HuffmanDecoder.Decoder.ProcessRestart | libuvccamera/src/main/jni/libjpeg-turbo-1.4.0/jdhuff.c:519-549 | a restart moves to the next segment and forgets the DC predictions |
| HuffmanTransmission.TransmitScan | libuvccamera/src/main/jni/libjpeg-turbo-1.4.0/jdhuff.c:553-645 | every MCU sequence whose symbols have codes comes back unchanged, for every restart interval |
| OptimalTable.FindSmallest | libuvccamera/src/main/jni/libjpeg-turbo-1.4.0/jchuff.c:874-895 | the least nonzero frequency, the largest symbol among equals, skipping one |
| OptimalTable.LengthenTree | libuvccamera/src/main/jni/libjpeg-turbo-1.4.0/jchuff.c:905-920 | every symbol on the list gains one bit, and the end of the list is found |
| OptimalTable.GrowTree | libuvccamera/src/main/jni/libjpeg-turbo-1.4.0/jchuff.c:871-922 | for all frequencies the lists form trees; the final lengths have Kraft sum 1 and minimise sum(freq * size) over all prefix codes, and a length n takes a total of at least the Fibonacci number F(n + 2) |
| OptimalTable.OptimumIsReached | libuvccamera/src/main/jni/libjpeg-turbo-1.4.0/jchuff.c:871-922 | no feasible assignment of lengths costs less than the one that was found |
| HuffmanDepth.MergeDeep | libuvccamera/src/main/jni/libjpeg-turbo-1.4.0/jchuff.c:897-920 | merging the two least frequent trees keeps the bound: a tree of depth n weighs at least a Fibonacci number |
| HuffmanDepth.WeightOfLongCode | libuvccamera/src/main/jni/libjpeg-turbo-1.4.0/jchuff.c:925-934 | the Fibonacci number that a length of 33 takes is 9227465 |
| OptimalTable.LongCodeIsHeavy | libuvccamera/src/main/jni/libjpeg-turbo-1.4.0/jchuff.c:925-934 | a length above 32 takes frequencies with at least that total |
| HuffmanOptimality.BoundAfterMerge | libuvccamera/src/main/jni/libjpeg-turbo-1.4.0/jchuff.c:897-903 | merging the two least frequent trees keeps the lower bound for every code |
| HuffmanOptimality.SwapIsCheaper | libuvccamera/src/main/jni/libjpeg-turbo-1.4.0/jchuff.c:874-903 | giving the longer code to the rarer symbol is never worse |
| HuffmanTree.MergeBalanced | libuvccamera/src/main/jni/libjpeg-turbo-1.4.0/jchuff.c:897-920 | a merge keeps the Kraft share and the cost of every tree |
| OptimalTable.CountLengths | libuvccamera/src/main/jni/libjpeg-turbo-1.4.0/jchuff.c:925-934 | the count of every length is the number of symbols with that length, with Kraft sum 1, or an error exactly when a length exceeds 32 |
| OptimalTable.SomeShorter | libuvccamera/src/main/jni/libjpeg-turbo-1.4.0/jchuff.c:947-950 | the search for a shorter length ends at a positive index |
| OptimalTable.AdjustedIsFull | libuvccamera/src/main/jni/libjpeg-turbo-1.4.0/jchuff.c:952-955 | a step of the length limit keeps the Kraft sum and the number of codes |
| OptimalTable.LimitLengths | libuvccamera/src/main/jni/libjpeg-turbo-1.4.0/jchuff.c:946-957 | all lengths end at 16 or less with the Kraft sum and the number of codes unchanged, and every count fits a byte; counts without a length above 16 stay as they are, and others change by steps that take two codes of the longest length and one of the longest at most i - 2 and give one of i - 1 and two of j + 1 |
| OptimalTable.RemovePseudoSymbol | libuvccamera/src/main/jni/libjpeg-turbo-1.4.0/jchuff.c:959-962 | exactly the longest length in use loses one code and every other count is unchanged, which leaves the all-ones code unused |
| OptimalTable.ListSymbols | libuvccamera/src/main/jni/libjpeg-turbo-1.4.0/jchuff.c:970-977 | the symbols with codes, by length and then by value, each once and at the place that counts those before it |
| SymbolList.NoneGetsLonger | libuvccamera/src/main/jni/libjpeg-turbo-1.4.0/jchuff.c:959-977 | when the longest length gives up one code, the place of each listed symbol has a code no longer than was counted for it |
| SymbolList.OrderIsKept | libuvccamera/src/main/jni/libjpeg-turbo-1.4.0/jchuff.c:970-977 | a symbol for which fewer bits were counted does not get a longer code, whatever the length limit did |
| SymbolList.DataAreShorter | libuvccamera/src/main/jni/libjpeg-turbo-1.4.0/jchuff.c:846-980 | if no code is longer than was counted, the data are not longer than the optimal cost without the pseudo-symbol |
| OptimalTable.GenOptimalTable | libuvccamera/src/main/jni/libjpeg-turbo-1.4.0/jchuff.c:846-980 | for one to 254 counted symbols the generated table is legal and has exactly those symbols, unless a length exceeds 32, which is reported and takes a total of at least 9227464; a symbol with a shorter counted length has no longer code; if no counted length exceeds 16, no code is longer than the optimal length of its symbol, so the data are at most as long as the optimum less the pseudo-symbol's code |
| HuffmanStatistics.HtestOneBlock | libuvccamera/src/main/jni/libjpeg-turbo-1.4.0/jchuff.c:713-780 | the counts of a block are those of the symbols that encode_one_block writes, or an error for a magnitude out of range |
| HuffmanStatistics.CountIsNumber | libuvccamera/src/main/jni/libjpeg-turbo-1.4.0/jchuff.c:713-780 | a counter is the number of places at which its symbol occurs |
| HuffmanStatistics.Gatherer.EncodeMcuGather | libuvccamera/src/main/jni/libjpeg-turbo-1.4.0/jchuff.c:786-815 | the statistics pass sees the same symbols as the output pass, restarts included |
| HuffmanOptimization.GatherScan | libuvccamera/src/main/jni/libjpeg-turbo-1.4.0/jchuff.c:786-815 | after the statistics pass every counter is the number of times its symbol will be sent |
| HuffmanOptimization.FinishPassGather | libuvccamera/src/main/jni/libjpeg-turbo-1.4.0/jchuff.c:987-1025 | the tables made from the counts have a code for every symbol that was counted; a failure is a length above 32, and takes more than nine million symbols |
| HuffmanOptimization.OptimizeAndTransmit | libuvccamera/src/main/jni/libjpeg-turbo-1.4.0/jchuff.c:987-1025 | two passes: tables from the statistics, then every MCU comes back unchanged; the only failure is a length above 32, which no scan of fewer than 9227464 symbols meets |
| ProgressiveWriter.Writer.EmitBits | libuvccamera/src/main/jni/libjpeg-turbo-1.4.0/jcphuff.c:243-264 | the bits are appended, with at most 7 waiting in the 24-bit window between calls |
| ProgressiveWriter.Writer.FlushBits | libuvccamera/src/main/jni/libjpeg-turbo-1.4.0/jcphuff.c:267-273 | seven ones fill the last byte |
| ProgressiveEncoder.Encoder.EmitEobRun | libuvccamera/src/main/jni/libjpeg-turbo-1.4.0/jcphuff.c:315-339 | a pending run is sent as one symbol, its extra bits, which are at most 14, and all buffered correction bits in order |
| ProgressiveEncoder.Encoder.EmitBufferedBits | libuvccamera/src/main/jni/libjpeg-turbo-1.4.0/jcphuff.c:296-309 | the buffered bits are emitted in the order in which they were produced |
| ProgressiveEncoder.Encoder.PrePass | libuvccamera/src/main/jni/libjpeg-turbo-1.4.0/jcphuff.c:640-655 | absolute values and the index of the last newly nonzero coefficient |
| ProgressiveEncoder.Encoder.EncodeAcRefine | libuvccamera/src/main/jni/libjpeg-turbo-1.4.0/jcphuff.c:617-738 | a block is sent or joins the pending run; between blocks BE <= 937, EOBRUN < 0x7FFF, BE > 0 implies EOBRUN > 0, and writes stay inside the correction buffer |
| ProgressiveEncoder.Encoder.EncodeAcFirst | libuvccamera/src/main/jni/libjpeg-turbo-1.4.0/jcphuff.c:463-556 | a block of a first AC scan is sent or joins the pending run |
| ProgressiveEncoder.Encoder.EncodeDcFirst | libuvccamera/src/main/jni/libjpeg-turbo-1.4.0/jcphuff.c:376-457 | the shifted DC value is sent as a difference |
| ProgressiveEncoder.Encoder.EncodeMcu | libuvccamera/src/main/jni/libjpeg-turbo-1.4.0/jcphuff.c:376-738 | between restarts, an MCU of any progressive mode adds its blocks to the scan, in a statistics pass and in an output pass alike |
| ProgressiveEncoder.Encoder.FinishPass | libuvccamera/src/main/jni/libjpeg-turbo-1.4.0/jcphuff.c:745-759 | the pending run is sent and the bits flushed; the pass fails exactly when a symbol has no code or a coefficient is out of range |
| ProgressiveEncoder.Encoder.EmitSymbol | libuvccamera/src/main/jni/libjpeg-turbo-1.4.0/jcphuff.c:280-289 | a symbol is emitted with its code, and without one the encoder fails; in a statistics pass its counter goes up by one |
| ProgressiveEncoder.Encoder.FinishGather | libuvccamera/src/main/jni/libjpeg-turbo-1.4.0/jcphuff.c:776-777 | when the last run has been counted, the counters are those of the symbols that the output pass sends, unless a coefficient is out of range |
| ProgressiveModel.RunIsOneSymbol | libuvccamera/src/main/jni/libjpeg-turbo-1.4.0/jcphuff.c:618-738 | what is sent block by block amounts to one end-of-band symbol for each run, followed by the run's correction bits, each exactly once and in order |
| ProgressiveModel.BlockSplits | libuvccamera/src/main/jni/libjpeg-turbo-1.4.0/jcphuff.c:618-738 | the stream splits into the codes of a block and the run it begins |
| ProgressiveModel.NewCode | libuvccamera/src/main/jni/libjpeg-turbo-1.4.0/jcphuff.c:706-722 | a newly nonzero coefficient: run symbol, sign, and the corrections passed over |
| ProgressiveModel.ZerosCode | libuvccamera/src/main/jni/libjpeg-turbo-1.4.0/jcphuff.c:672-689 | sixteen zeros before a further new coefficient: ZRL and the corrections passed over |
| HuffmanFormat.BandRunThenValue | libuvccamera/src/main/jni/libjpeg-turbo-1.4.0/jcphuff.c:489-548 | a first AC scan codes runs of zeros in its band like a sequential scan, and the zeros at its end, if any, as an end of band |
| HuffmanFormat.RunIsSpelled | libuvccamera/src/main/jni/libjpeg-turbo-1.4.0/jcphuff.c:316-340 | a run of 2^n to 2^(n + 1) - 1 ends of band is the symbol 16n, the n bits of the run below its leading one, and all correction bits held |
| HuffmanFormat.RunsAreLong | libuvccamera/src/main/jni/libjpeg-turbo-1.4.0/jcphuff.c:713-722 | a run ends only before a block with codes, at the end of the scan, with 0x7FFF blocks, or when more than 937 correction bits are held |
| ProgressiveDecoder.GetEobRun | libuvccamera/src/main/jni/libjpeg-turbo-1.4.0/jdphuff.c:398-406 | a run length is read back from its symbol and extra bits |
| ProgressiveDecoder.GetAcFirst | libuvccamera/src/main/jni/libjpeg-turbo-1.4.0/jdphuff.c:378-417 | a band of a first scan is read back, and the run it ends in |
| ProgressiveDecoder.GetAcRefine | libuvccamera/src/main/jni/libjpeg-turbo-1.4.0/jdphuff.c:528-612 | a band of a refinement scan: new coefficients are placed and every old one gets its correction bit |
| ProgressiveDecoder.AdvanceBand | libuvccamera/src/main/jni/libjpeg-turbo-1.4.0/jdphuff.c:560-586 | the decoder stops at the coefficient the encoder meant, correcting on the way |
| ProgressiveDecoder.CorrectRest | libuvccamera/src/main/jni/libjpeg-turbo-1.4.0/jdphuff.c:596-624 | inside a run the rest of the band only takes correction bits |
| ProgressiveMcuDecoder.Decoder.DecodeMcu | libuvccamera/src/main/jni/libjpeg-turbo-1.4.0/jdphuff.c:290-640 | between restarts the decoder stays in step with the blocks and runs of the scan and receives every block; without data it leaves the MCU as it is |
| ProgressiveTransmission.TransmitScan | libuvccamera/src/main/jni/libjpeg-turbo-1.4.0/jdphuff.c:290-640 | a Huffman-coded progressive scan without restarts gives the decoder exactly the next approximation; it fails exactly when a table is illegal, a symbol has no code or a coefficient is out of range |
| ProgressiveTransmission.TransmitProgressive | libuvccamera/src/main/jni/libjpeg-turbo-1.4.0/jdphuff.c:290-640 | a Huffman-coded scan of an accepted script advances what is known of every coefficient; TransmitScript is the whole script |
| ProgressiveRestarts.TransmitScan | libuvccamera/src/main/jni/libjpeg-turbo-1.4.0/jdphuff.c:233-640 | a Huffman-coded progressive scan in restart intervals of any length gives the decoder exactly the next approximation; it fails exactly when a table is illegal, or in some interval a symbol has no code or a coefficient is out of range |
| ProgressiveRestarts.RestartEncoder.EmitRestart | libuvccamera/src/main/jni/libjpeg-turbo-1.4.0/jcphuff.c:347-368 | a restart sends the pending run, ends the segment with RSTn in turn and forgets predictions, run and correction bits |
| ProgressiveRestarts.RestartEncoder.EncodeMcu | libuvccamera/src/main/jni/libjpeg-turbo-1.4.0/jcphuff.c:391-452 | an MCU joins its restart interval, after a restart just when the interval is full |
| ProgressiveRestarts.EncodeScan | libuvccamera/src/main/jni/libjpeg-turbo-1.4.0/jcphuff.c:347-759 | the output is the stuffed segments with their markers, and each segment holds the codes of its interval; it fails exactly when some interval has no codes |
| ProgressiveRestarts.RestartDecoder.ProcessRestart | libuvccamera/src/main/jni/libjpeg-turbo-1.4.0/jdphuff.c:233-265 | a restart moves to the next segment, throws away the bits that are left, and forgets predictions and run |
| ProgressiveRestarts.RestartDecoder.DecodeMcu | libuvccamera/src/main/jni/libjpeg-turbo-1.4.0/jdphuff.c:290-640 | the decoder stays in step through the segments and receives every block |
| ProgressiveRestarts.WithoutRestarts | libuvccamera/src/main/jni/libjpeg-turbo-1.4.0/jcphuff.c:391-394 | with a restart interval of 0 the scan is one interval |
| ProgressiveOptimization.OptimizeAndTransmit | libuvccamera/src/main/jni/libjpeg-turbo-1.4.0/jcphuff.c:766-806 | statistics, tables made from them, and the scan sent with these tables: every block is received; the only failures are a coefficient out of range and a code length above 32, which takes at least 9227464 symbols |
| ProgressiveOptimization.GatherScan | libuvccamera/src/main/jni/libjpeg-turbo-1.4.0/jcphuff.c:280-289 | after the statistics pass, restarts included, every counter is the number of times its symbol will be sent; the pass fails exactly when a coefficient is out of range |
| ProgressiveOptimization.RestartGatherer.EncodeMcu | libuvccamera/src/main/jni/libjpeg-turbo-1.4.0/jcphuff.c:391-452 | an MCU is counted in its interval, and the run pending before a restart is counted at the restart |
| ProgressiveOptimization.FinishPassGather | libuvccamera/src/main/jni/libjpeg-turbo-1.4.0/jcphuff.c:766-806 | each table is generated once, DC refinement has none, and every symbol counted has a code |
| ProgressiveOptimization.IntervalProper | libuvccamera/src/main/jni/libjpeg-turbo-1.4.0/jcphuff.c:376-738 | all symbols of coefficients in range are at most 11 in DC scans and 250 in AC scans and belong to tables of the scan's components, runs included |
| ProgressiveOptimization.IntervalUses | libuvccamera/src/main/jni/libjpeg-turbo-1.4.0/jcphuff.c:376-738 | every table that is generated has been used: each component sends a symbol, be it only that of a run |
| RestartIntervals.DivideInOrder | libuvccamera/src/main/jni/libjpeg-turbo-1.4.0/jcarith.c:691-700 | the intervals begun so far are those of the whole scan, in order |
| RestartIntervals.DivideSizes | libuvccamera/src/main/jni/libjpeg-turbo-1.4.0/jcarith.c:691-700 | every restart interval but the last holds exactly the given number of MCUs, and together they are the MCUs of the scan |
| RestartIntervals.NextOfDivision | libuvccamera/src/main/jni/libjpeg-turbo-1.4.0/jcarith.c:691-700 | the next MCU is the next of its interval, or the first of the next interval just when this one is full |
| Quantization.Flss | libuvccamera/src/main/jni/libjpeg-turbo-1.4.0/jcdctmgr.c:81-110 | the number of significant bits |
| Quantization.ReciprocalDivides | libuvccamera/src/main/jni/libjpeg-turbo-1.4.0/jcdctmgr.c:171-203 | for 16- and 32-bit words, 2 <= d < 2^16 and x + d/2 < 2^W: ((x + corr) * recip) >> r equals (x + d/2) / d |
| Quantization.ReciprocalFits | libuvccamera/src/main/jni/libjpeg-turbo-1.4.0/jcdctmgr.c:171-203 | reciprocal and correction fit in W bits and the product in 2W bits |
| Quantization.ScaleShifts | libuvccamera/src/main/jni/libjpeg-turbo-1.4.0/jcdctmgr.c:151-163 | two multiplications keeping the upper halves, the second by the scale entry, give the same rounded quotient as multiply and shift, and the scale fits a word exactly for divisors other than 2 |
| Quantization.ShiftDefinedExactly | libuvccamera/src/main/jni/libjpeg-turbo-1.4.0/jcdctmgr.c:171-203 | the shift read back is smaller than the product's width exactly for divisors other than 1, whose shift is stored as -1 |
| Quantization.ComputeReciprocal | libuvccamera/src/main/jni/libjpeg-turbo-1.4.0/jcdctmgr.c:171-203 | the four entries written for a divisor, all others unchanged, and whether SIMD code may use them |
| Quantization.PrepareDivisors | libuvccamera/src/main/jni/libjpeg-turbo-1.4.0/jcdctmgr.c:218-295 | a table holds the reciprocals of its 64 divisors; SIMD stays in use exactly when all allow it |
| Quantization.IslowDivisorExactly | libuvccamera/src/main/jni/libjpeg-turbo-1.4.0/jcdctmgr.c:249-253 | the slow DCT's divisor is 8q exactly for q <= 8191, and never 1 |
| Quantization.IfastDivisorExactly | libuvccamera/src/main/jni/libjpeg-turbo-1.4.0/jcdctmgr.c:285-291 | for every UINT16 quantiser value, scale and both widths, the fast DCT's truncated divisor is neither 0 nor 1 exactly when (q * scale + 1024) % 2^27 >= 4096; for 8-bit values that is q * scale >= 3072 |
| Quantization.IfastDivisorFails | libuvccamera/src/main/jni/libjpeg-turbo-1.4.0/jcdctmgr.c:265-291 | quantiser value 1 at the scale 1247 meets the undefined shift, and 8192 at the scale 16384 the divisor 0 |
| Quantization.Quantize | libuvccamera/src/main/jni/libjpeg-turbo-1.4.0/jcdctmgr.c:389-421 | every coefficient is the rounded quotient by its divisor, negative ones mirrored |
| Quantization.RoundedIsNearest | libuvccamera/src/main/jni/libjpeg-turbo-1.4.0/jcdctmgr.c:389-421 | the quotient is the nearest integer, of two equally near ones that farther from zero, symmetric in the sign |
| Quantization.QuotientFits | libuvccamera/src/main/jni/libjpeg-turbo-1.4.0/jcdctmgr.c:419-419 | with 16-bit elements the quotient fits a JCOEF |
| ImageGeometry.BlocksTile | libuvccamera/src/main/jni/libjpeg-turbo-1.4.0/jcmaster.c:124-158 | for every image size and sampling factor, (tiles - 1) * factor + last = blocks with 1 <= last <= factor |
| ImageGeometry.FrameIsAccepted | libuvccamera/src/main/jni/libjpeg-turbo-1.4.0/jcmaster.c:79-122 | a frame is accepted just when it is not empty, at most 65500 by 65500, with rows below 2^32 samples of 8 bits and at most 10 components with factors 1 to 4 |
| ImageGeometry.ScanIsAccepted | libuvccamera/src/main/jni/libjpeg-turbo-1.4.0/jcmaster.c:347-413 | a scan is accepted just when it has one component, or up to 4 with at most 10 blocks in an MCU |
| ImageGeometry.Master.InitialSetup | libuvccamera/src/main/jni/libjpeg-turbo-1.4.0/jcmaster.c:69-158 | the largest sampling factors and the rounded-up sizes of every component, or the first of the errors that applies, and none otherwise |
| ImageGeometry.Master.PerScanSetup | libuvccamera/src/main/jni/libjpeg-turbo-1.4.0/jcmaster.c:342-425 | the MCUs of an interleaved or noninterleaved scan tile every component in both directions, the membership list has at most 10 blocks or the scan is refused, and the restart interval is limited to 16 bits |
| McuTraversal.EveryBlockIsSent | libuvccamera/src/main/jni/libjpeg-turbo-1.4.0/jccoefct.c:141-215 | every real block of every component is in the MCU and at the place that division gives |
| McuTraversal.SentOnce | libuvccamera/src/main/jni/libjpeg-turbo-1.4.0/jccoefct.c:141-215 | no two blocks share a place: every real block is sent exactly once |
| McuTraversal.MembershipAt | libuvccamera/src/main/jni/libjpeg-turbo-1.4.0/jcmaster.c:408-414 | the block at the place of a component in an MCU is coded as one of that component |
| McuTraversal.PlacesInOrder | libuvccamera/src/main/jni/libjpeg-turbo-1.4.0/jccoefct.c:163-200 | within an MCU blocks come by component, then by row, then by column |
| McuTraversal.McusInOrder | libuvccamera/src/main/jni/libjpeg-turbo-1.4.0/jccoefct.c:149-210 | MCUs come by row and then by column |
| McuTraversal.DummyRepeatsLeft | libuvccamera/src/main/jni/libjpeg-turbo-1.4.0/jccoefct.c:182-189 | a dummy block at the right edge repeats the DC value of the block on its left; `DummiesAreSent` says what it holds |
| McuTraversal.DummyRepeatsAbove | libuvccamera/src/main/jni/libjpeg-turbo-1.4.0/jccoefct.c:190-197 | a dummy row begins with the DC value of the last block of the row above, which exists; `DummiesAreSent` says what it holds |
| McuTraversal.DummiesAreSent | libuvccamera/src/main/jni/libjpeg-turbo-1.4.0/jccoefct.c:182-197 | at every place of a sent MCU that is outside the component the DC value is that of the block sent before it and all 63 AC coefficients are 0 |
| CoefController.SinglePass.CompressData | libuvccamera/src/main/jni/libjpeg-turbo-1.4.0/jccoefct.c:141-215 | for every pattern of suspensions the MCUs accepted so far are the first ones in raster order, and the counters say how many |
| CoefController.SinglePass.FillMcu | libuvccamera/src/main/jni/libjpeg-turbo-1.4.0/jccoefct.c:163-200 | the MCU buffer holds the blocks of the MCU with its dummy blocks, those that `McuTraversal.DummiesAreSent` describes |
| CoefController.SinglePass.StartIMcuRow | libuvccamera/src/main/jni/libjpeg-turbo-1.4.0/jccoefct.c:70-91 | counters for a new iMCU row, with the rows that are left at the bottom |
| CoefController.SinglePass.AllSent | libuvccamera/src/main/jni/libjpeg-turbo-1.4.0/jccoefct.c:205-214 | after the last iMCU row all MCUs have been sent in raster order |
| CoefBuffer.CoefArray.LoadStrip | libuvccamera/src/main/jni/libjpeg-turbo-1.4.0/jccoefct.c:253-323 | the stored rows of an iMCU row are the real blocks with exactly the dummy blocks of the single-pass controller |
| CoefBuffer.FullImage.CompressFirstPass | libuvccamera/src/main/jni/libjpeg-turbo-1.4.0/jccoefct.c:244-326 | the first pass stores an iMCU row of every component of the frame, whatever the components of the scan, and sends the scan's MCUs of it |
| CoefBuffer.FullImage.CompressOutput | libuvccamera/src/main/jni/libjpeg-turbo-1.4.0/jccoefct.c:339-393 | sending from the stored arrays, through suspensions, gives the same raster of MCUs |
| CoefBuffer.FullImage.AllSent | libuvccamera/src/main/jni/libjpeg-turbo-1.4.0/jccoefct.c:339-393 | a pass over the stored arrays sends the very MCUs that the single-pass controller sends |
| CoefBuffer.FullImage.SendFirstPass | libuvccamera/src/main/jni/libjpeg-turbo-1.4.0/jccoefct.c:244-326 | the first scan leaves all components stored and has sent its MCUs in raster order |
| CoefBuffer.FullImage.SendPass | libuvccamera/src/main/jni/libjpeg-turbo-1.4.0/jccoefct.c:339-393 | any later scan sends the raster of its own components and layout from the same arrays |
| Preprocessing.Prep.CreateContextBuffer | libuvccamera/src/main/jni/libjpeg-turbo-1.4.0/jcprepct.c:268-307 | five row groups of pointers wrap around three groups of rows |
| Preprocessing.Prep.PreProcessContext | libuvccamera/src/main/jni/libjpeg-turbo-1.4.0/jcprepct.c:196-256 | for every chunking of the input each row group given out is downsampled from the image rows clamp(g*R + i, 0, H - 1) for -R <= i < 2R |
| Preprocessing.DownsamplerSees | libuvccamera/src/main/jni/libjpeg-turbo-1.4.0/jcprepct.c:196-256 | which image rows the downsampler is given for a row group, the first row standing for rows above the image and the last for rows below |
| Preprocessing.Prep.ReadContext | libuvccamera/src/main/jni/libjpeg-turbo-1.4.0/jcprepct.c:239-244 | when a group is downsampled the aliased pointers show the clamped image around it |
| Preprocessing.RingTakes | libuvccamera/src/main/jni/libjpeg-turbo-1.4.0/jcprepct.c:210-228 | rows stored behind the ring's contents overwrite only rows that are no longer needed |
| Preprocessing.RingTurns | libuvccamera/src/main/jni/libjpeg-turbo-1.4.0/jcprepct.c:246-252 | after a lap the ring's indices name the same image rows |
| Preprocessing.Prep.PreProcessPlain | libuvccamera/src/main/jni/libjpeg-turbo-1.4.0/jcprepct.c:129-190 | without context every group is downsampled from its image rows, the last padded with the last row, and groups below the image repeat the last output row |
| Preprocessing.BelowTheImage | libuvccamera/src/main/jni/libjpeg-turbo-1.4.0/jcprepct.c:170-186 | a row group below the image repeats the last row of the group that holds the last image row |
| Preprocessing.Prep.PreProcess | libuvccamera/src/main/jni/libjpeg-turbo-1.4.0/jcprepct.c:129-256 | rows are converted once and in order, and a full output needs new rows as long as the image has any |
| MainController.Main.ProcessData | libuvccamera/src/main/jni/libjpeg-turbo-1.4.0/jcmainct.c:76-122 | the row counter, with the row held back by a suspension, agrees with the rows converted; it is at least 1 when decremented |
| MainController.Main.NothingToGo | libuvccamera/src/main/jni/libjpeg-turbo-1.4.0/jcmainct.c:83-121 | when all iMCU rows are done every image row has been converted |
| MainController.Compressor.WriteScanlines | libuvccamera/src/main/jni/libjpeg-turbo-1.4.0/jcapistd.c:76-111 | after every call image_height - rows_to_go = next_scanline + (1 if suspended), and fewer rows than offered are taken only at the bottom or under suspension |
| MainController.Compressor.ImageIsSent | libuvccamera/src/main/jni/libjpeg-turbo-1.4.0/jcapistd.c:76-111 | when all scanlines have been taken, the encoder has all MCUs of the picture in order and every row was converted once, whatever the suspensions |
| ImageCompression.CompressImage | libuvccamera/src/main/jni/libjpeg-turbo-1.4.0/jcapistd.c:76-111 | for every image, batch size and suspension pattern the compressor ends; it refuses exactly what the setup checks refuse, and otherwise lays the components out by their factors and has sent the raster of MCUs of the clamped and transformed image |
| ImageCompression.TransmitSent | libuvccamera/src/main/jni/libjpeg-turbo-1.4.0/jdarith.c:497-615 | the arithmetic-coded image decodes to MCUs in which every quantised block of every component stands at its place, exactly when no DC difference exceeds 2^15 |
| ImageCompression.TransmitSentHuffman | libuvccamera/src/main/jni/libjpeg-turbo-1.4.0/jchuff.c:987-1025 | the Huffman-coded image, with tables from its own statistics, decodes to MCUs in which every quantised block of every component stands at its place; the only failures are a coefficient out of range and a length above 32 |
| ImageCompression.LayOut | libuvccamera/src/main/jni/libjpeg-turbo-1.4.0/jcmaster.c:69-425 | the layout of an image and its interleaved scan, or the setup error that applies |
| ImageCompression.StripsFit | libuvccamera/src/main/jni/libjpeg-turbo-1.4.0/jccoefct.c:141-215 | the strips handed to the coefficient controller are rows of one picture |
| ImageCompression.PictureHas | libuvccamera/src/main/jni/libjpeg-turbo-1.4.0/jccoefct.c:163-180 | block row y of iMCU row k of a component comes from the 8 row groups of that iMCU row |
| FrameSession.Session.Run | libuvccamera/src/main/jni/UVCCamera/UVCPreview.cpp:390-567 | every interleaving of the four threads keeps the session's invariant: frames conserved, limits and lock discipline kept, pictures in order; what was accepted, taken or dropped is only added to; the states before and after each step are those of `AfterStep`, and the pool changes as `FrameHandoff.PoolMoves` says |
| FrameSession.Session.Finish | libuvccamera/src/main/jni/UVCCamera/UVCPreview.cpp:339-375 | the threads never block one another for good: from every state of every run some further steps stop the preview and end all threads, and then every frame is in the pool, freed or dropped, exactly once |
| FrameSession.PvComesNearer | libuvccamera/src/main/jni/UVCCamera/UVCPreview.cpp:500-567 | while the preview thread is not done after the preview has stopped, some thread can take a step that brings it nearer to its end |
| FrameSession.StepMoves | libuvccamera/src/main/jni/UVCCamera/UVCPreview.cpp:110-136 | every step uses the pool as it should, and none drops a frame but addCaptureFrame without a running preview |
| FrameHandoff.PoolUsedFirst | libuvccamera/src/main/jni/UVCCamera/UVCPreview.cpp:110-136 | in every step of a run frames are freed only when the pool holds 6, and allocated only when it is empty |
| FrameSession.Session.NoFrameTwice | libuvccamera/src/main/jni/UVCCamera/UVCPreview.cpp:110-136 | a frame never has two owners, every allocated frame is in exactly one place, the queue has at most 4 frames and the pool at most 6 |
| FrameSession.Session.TakenInOrder | libuvccamera/src/main/jni/UVCCamera/UVCPreview.cpp:703-746 | pictures taken for capturing are a subsequence of those accepted from the callback |
| FrameSession.Session.Step | libuvccamera/src/main/jni/UVCCamera/UVCPreview.cpp:703-715 | the only step that drops a frame is addCaptureFrame when the preview is not running; only the callback accepts pictures and only the capture thread takes them; the step leaves every thread, lock, queue and the pool as `AfterStep` says |
| FrameSession.Session.LosesFrame | libuvccamera/src/main/jni/UVCCamera/UVCPreview.cpp:703-715 | a run in which a frame is lost: the preview is stopped while a frame is drawn |
| FrameSession.Session.TakesFirst | libuvccamera/src/main/jni/UVCCamera/UVCPreview.cpp:390-734 | a run in which the first picture goes from the callback through the queue and the preview thread to the capture thread |
| FrameSession.Session.AfterStop | libuvccamera/src/main/jni/UVCCamera/UVCPreview.cpp:339-375 | after stopPreview the queues are empty and every frame is in the pool, freed, dropped or with the capture thread |
| FrameSession.Session.PvOffer | libuvccamera/src/main/jni/UVCCamera/UVCPreview.cpp:703-715 | the waiting capture frame is recycled before it is replaced, and the frame is dropped exactly when not running |
| FrameSession.Session.UsbAdd | libuvccamera/src/main/jni/UVCCamera/UVCPreview.cpp:421-434 | a frame is queued exactly when running with fewer than 4 waiting, otherwise it is returned |
| FrameSession.Session.PvTake | libuvccamera/src/main/jni/UVCCamera/UVCPreview.cpp:436-449 | the first frame of the queue passes to the preview thread |
| FrameSession.Session.PvDecode | libuvccamera/src/main/jni/UVCCamera/UVCPreview.cpp:529-541 | the decoded picture takes the place of the compressed one, whose frame is recycled |
| FrameSession.Session.ClearOne | libuvccamera/src/main/jni/UVCCamera/UVCPreview.cpp:451-459 | clearing recycles one frame of the queue while the lock keeps others out |
| FrameSession.Session.CpTake | libuvccamera/src/main/jni/UVCCamera/UVCPreview.cpp:720-734 | the waiting frame passes to the capture thread |
| FrameSession.Session.CpUse | libuvccamera/src/main/jni/UVCCamera/UVCPreview.cpp:848-878 | a captured frame is converted for the callback or goes back to the pool, also when there is no memory for the conversion |
| FrameHandoff.Passes | libuvccamera/src/main/jni/UVCCamera/UVCPreview.cpp:110-136 | passing a frame from one holder to another conserves all frames |
| FrameHandoff.ObtainTakes | libuvccamera/src/main/jni/UVCCamera/UVCPreview.cpp:110-124 | get_frame takes a frame out of the pool or adds a new one |
| FrameHandoff.RecycleFillsPool | libuvccamera/src/main/jni/UVCCamera/UVCPreview.cpp:126-136 | a frame joins a pool of fewer than 6 frames and none is freed; with 6 in the pool it is freed and the pool unchanged; NULL changes nothing |
| FrameHandoff.ObtainPrefersPool | libuvccamera/src/main/jni/UVCCamera/UVCPreview.cpp:110-124 | get_frame allocates only when the pool is empty, and otherwise takes its last frame |
| FrameHandoff.LastInFirstOut | libuvccamera/src/main/jni/UVCCamera/UVCPreview.cpp:110-136 | a recycled frame is the next to be taken, unless the pool was full |
| FrameHandoff.QueueIsFair | libuvccamera/src/main/jni/UVCCamera/UVCPreview.cpp:421-449 | a frame joins behind at most 3 others while the preview runs, and the one that waited longest is taken first |
| FrameHandoff.LoseFrame | libuvccamera/src/main/jni/UVCCamera/UVCPreview.cpp:703-746 | dropping or replacing a frame keeps the order of the pictures that remain |
| FrameSections.FrameStore.RecycleFrame | libuvccamera/src/main/jni/UVCCamera/UVCPreview.cpp:126-136 | recycle_frame on the real arrays: with fewer than 6 frames in the pool the frame is appended and none is freed, with 6 it is freed and the pool is unchanged |
| FrameSections.FrameStore.GetFrame | libuvccamera/src/main/jni/UVCCamera/UVCPreview.cpp:110-124 | get_frame on the real arrays: it takes the last frame of the pool, and allocates only when the pool is empty |
| FrameSections.FrameStore.AddPreviewFrame | libuvccamera/src/main/jni/UVCCamera/UVCPreview.cpp:421-434 | the queue section on the real arrays: a frame is appended just when the preview runs with at most 3 frames waiting |
| FrameSections.FrameStore.WaitPreviewFrame | libuvccamera/src/main/jni/UVCCamera/UVCPreview.cpp:436-449 | the taking section on the real arrays: the first frame of the queue leaves it, just when the preview runs and one waits |
| FrameSections.FrameStore.ClearPreviewFrame | libuvccamera/src/main/jni/UVCCamera/UVCPreview.cpp:451-459 | clearing empties the queue, fills the pool to 6 with the frames that waited longest and frees the rest |
| FrameSections.ClearReturnsAll | libuvccamera/src/main/jni/UVCCamera/UVCPreview.cpp:451-459 | clearing returns every frame of the queue to the store |
| FrameSections.ClearFillsPool | libuvccamera/src/main/jni/UVCCamera/UVCPreview.cpp:451-459 | clearing from any place on fills the pool to 6 and frees the rest, in the order of the queue |
| FrameSections.FrameStore.AddCaptureFrame | libuvccamera/src/main/jni/UVCCamera/UVCPreview.cpp:703-715 | only the latest frame is kept and the one before it goes to the pool, or is freed if 6 are there; without a running preview the frame is dropped |
| FrameSections.FrameStore.WaitCaptureFrame | libuvccamera/src/main/jni/UVCCamera/UVCPreview.cpp:720-734 | the taking section of the capture thread on the real arrays |
| FrameSections.FrameStore.ClearCaptureFrame | libuvccamera/src/main/jni/UVCCamera/UVCPreview.cpp:739-746 | the waiting frame is recycled and the slot is empty |
| FrameSections.OfferUninterrupted | libuvccamera/src/main/jni/UVCCamera/UVCPreview.cpp:703-715 | the session's steps of addCaptureFrame, run without interruption, are the section that the array code performs |
| FrameSections.ClearUninterrupted | libuvccamera/src/main/jni/UVCCamera/UVCPreview.cpp:451-459 | the session's steps of clearPreviewFrame, run without interruption, are the section that the array code performs |
| FrameSections.ClearCaptureUninterrupted | libuvccamera/src/main/jni/UVCCamera/UVCPreview.cpp:739-746 | the session's steps of clearCaptureFrame, run without interruption, are the section that the array code performs |
| FrameSections.StopUninterrupted | libuvccamera/src/main/jni/UVCCamera/UVCPreview.cpp:339-375 | the same steps, as stopPreview runs them, are the same section |
| ObjectArrays.ObjectArray.Put | libuvccamera/src/main/jni/UVCCamera/objectarray.h:65-73 | a pointer other than NULL is appended, growing the array; NULL changes nothing |
| ObjectArrays.ObjectArray.Remove | libuvccamera/src/main/jni/UVCCamera/objectarray.h:77-84 | the element is returned and those behind it move up |
| ObjectArrays.ObjectArray.RemoveObject | libuvccamera/src/main/jni/UVCCamera/objectarray.h:88-95 | the first occurrence goes, and only that |
| ObjectArrays.ObjectArray.Resize | libuvccamera/src/main/jni/UVCCamera/objectarray.h:45-58 | a new capacity keeps what fits |
| ObjectArrays.ObjectArray.Last | libuvccamera/src/main/jni/UVCCamera/objectarray.h:100-105 | the last element, or NULL when empty |
| ObjectArrays.ObjectArray.GetIndex | libuvccamera/src/main/jni/UVCCamera/objectarray.h:110-119 | the first index of a pointer, or -1 |
| ObjectArrays.ObjectArray.Clear | libuvccamera/src/main/jni/UVCCamera/objectarray.h:124-127 | the array is empty and back at its first capacity |
| ObjectArrays.WithoutFirstCounts | libuvccamera/src/main/jni/UVCCamera/objectarray.h:88-95 | removing the first occurrence removes exactly one |

## Left out

Arithmetic coding:

- ArithMcuEncoder.McuEncoder.EncodeMcu and ArithMcuDecoder.McuDecoder.DecodeMcu: one segment between restart markers; `ArithRestarts` and, for Huffman coding, `ProgressiveRestarts` put the segments together, where a restart makes a new coder object in place of clearing the old one.
- Resynchronisation after a wrong restart marker (`jpeg_resync_to_restart`): the decoder then stops decoding.
- Suspension of the entropy coders: output grows without limit and input is a finite byte sequence with a marker ahead.
- Overflow of the 32-bit counters of stacked 0xFF bytes and pending zeros, and of the DC predictions.
- The statistics areas of all tables are one array of bins with disjoint ranges; in the source each table has its own allocation.
- The decoder's `ct = -1` after an error is a field `failed`.
- Blocks are passed to and from the MCU coders as values.

Huffman coding:

- The 64-bit branches of the bit buffers, and `decode_mcu_fast`.
- Missing tables and table numbers out of range.
- The bit buffer of the decoder is a nonnegative number; in the source its upper bits are stale.
- BitReader.Reader.ReadRestartMarker: resynchronisation after a wrong restart marker; the model stops decoding there, as do HuffmanDecoder.Decoder.ProcessRestart and DecodeMcu.
- HuffmanEncoder.Encoder.EncodeMcu: the suspension return of `encode_mcu_huff`; output grows without limit, and the local buffer of 256 bytes is not modelled.
- HuffmanDecoder.DecodeOneBlock: every component is wanted at full size; the branches that only skip coefficients are left out.
- ScriptValidation.ValidateScript: whether there is an error, not which of the error codes; likewise for the table builders.
- ProgressiveEncoder.Encoder.EncodeMcu and ProgressiveMcuDecoder.Decoder.DecodeMcu: one restart interval; `ProgressiveRestarts` has the restarts.
- ProgressiveRestarts.TransmitScan: after an error the encoder's output is not used, where the source stops at once.
- ProgressiveWriter.Writer.EmitBits: the error for a symbol without a code is a result of its callers.
- ProgressiveTransmission.TransmitScan: derives all four tables, where the source derives those that the scan uses.
- HuffmanOptimization.FinishPassGather: copies the counts before it builds a table, where the source overwrites them.
- OptimalTable.GenOptimalTable: one to 254 symbols with a total of at most 10^9, since outside these bounds a byte-sized count overflows, a count is taken as infinite or the search runs off the array; `OptimizeAndTransmit` shows that the statistics of a scan stay inside.

Controllers:

- ScriptTransmission.TransmitScript: the statistics pass and the output pass of a scan get the same MCUs, which are collected once where the source sends them twice; with tables made from statistics the scans have at most 10^9 symbols each, and whether a length exceeds 32 is decided only up to the bound of `HuffmanDepth`. The decoder knows the restart interval of each scan, since DRI markers are not part of this model.
- The decoder's coefficient arrays are values, and a scan's blocks are read before any is stored, where the source decodes in place; no scan covers a block twice.
- Forward DCT, colour conversion and downsampling are parameters; the samples of all components of a row are one value.
- Quantization.Quantize: without a divisor of 0, which a quantiser value that is a multiple of 8192 gives, without the divisor 1 described above, and without the one element whose negation does not fit.
- Quantization.ComputeReciprocal: with 32-bit elements the source makes the scale entry by shifting an `int` by up to 33 bits, which C does not define; nothing reads that entry then.
- Quantization.PrepareDivisors: the divisors of the chosen DCT method are given, and the table is present.
- The shift by a width that is too large assumes a 64-bit `size_t`.
- Virtual arrays are arrays of block rows.
- `jpeg_write_raw_data`, progress monitors, `component_needed` and the checks of `global_state`.
- ImageGeometry.Master.InitialSetup: as compiled for `JPEG_LIB_VERSION` below 70, without scaled DCT sizes.

Frames:

- Window drawing, the conversion functions and the Java callback, except for which frame they hold and whether they fail.
- Condition variables and fairness: a waiting step may find nothing, and `FrameSession.Session.Finish` says that some schedule ends, not that every one does.
- Two sessions that overlap, which the source allows because the capture thread is not joined, and changes of the capture window or callback during a session.
- Failed allocation of the frame for a decoded or converted preview picture, which the source does not survive.
- Unprotected reads of the running flag are single steps.

Elsewhere: markers and headers, memory pools, source and destination managers, SIMD, the
DCT kernels, the command-line programs, the camera controls and the JNI layer.
