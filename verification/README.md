# Verification models for the camera, display and firmware libraries

This project models the algorithmic core of four parts of the repository in Dafny and proves properties of the models.

* **The baseline JPEG encoder** (`jpge.cpp`, driven by `to_jpg.cpp`).  Methods with the encoder's own fields and loops (bit register, chunked output
  buffer, in-place transform, Huffman and quantisation tables kept in file-level statics, MCU line buffer) are proved
  against functions that say which pixels, coefficients, bits and bytes come out.  A decoder written from ITU-T T.81
  (ISO/IEC 10918-1) then reads everything back: the entropy-coded bits (section F.2.2), the tables of the DQT and DHT
  segments (sections B.2.4.1 and B.2.4.2), the frame and scan headers, and the order of blocks (section A.2).  `FileRoundTrip.DecodeUndoesEncode`
  is the whole-file theorem for coefficients; `PixelRoundTrip.BlockRecovered` bounds how far the samples computed from
  a decoded file are from the coded pixels.  `CutFile.DecodesIffFits` says exactly when the file that `fmt2jpg` returns
  can be read, and bounds on the length of a file decide that for small and for large frames from their size alone.
* **The camera's frame protocol** (`cam_hal.c`): a state machine whose steps are single queue operations and single
  writes of shared fields, interleaved freely with the interrupt that forces IDLE and with the application.  The
  theorems are about every state of every run: who owns a frame, which captures are delivered and in which order, and
  why one is lost.  One way to lose a good capture is a race that only GRAB_LATEST mode allows:
  `CamRuns.CompleteIsKept` gives its exact condition and `CamRuns.GoodCaptureLost` a run.
* **Drawing** (`Adafruit_GFX.cpp`): circles, filled circles, rounded rectangles, lines, filled triangles, and the
  1-bit canvas with its byte-mask line drawing; and the DMA fill cache of `Adafruit_SPITFT.cpp`.
* **The firmware CRC** (`elf2bin.py`): what it is as a polynomial remainder, which damage it detects, and the check that
  the device runs over the flash.

## Reading the project

`Basics`, `Bits` hold arithmetic and bit strings.  The encoder, bottom up: `Huffman`, `T81Decoder`, `Entropy`,
`StandardTables`, `Dct`, `Cosines`, `Quantise`, `AnnexK`, `Stuffing`, `Scan`, `Output`, `Picture`, `Colour`, `Headers`,
`Encoder`, `ToJpg`; then the decoder `FileDecoder` and the theorems of `FileRoundTrip`, `FileSize`, `CutFile`,
`Reconstruct` and `PixelRoundTrip`.  `CamHal` is the camera protocol, `CamRuns` what its runs deliver and `CamBuffers` its
array loops.  `Circle`, `CircleAgreement`, `Line`, `Triangle`, `Canvas` and `FillCache` are the drawing code, `Crc` and
`CrcPolynomial` the firmware image.

C integers are unbounded in the model.  Where their width matters it is explicit: the int16 casts of the transform
(proved never to truncate), the int32 sums of the transform, the 24-bit window in the 32-bit bit register, the
Huffman code counter (proved to fit), int16 coordinates (preconditions that nothing wraps, and proofs that
intermediate values fit), 32-bit CRC words.

Assumptions.  `jpge.h` is not part of this model: the size of the encoder's output buffer is any positive number, and
`params::check` is taken to accept qualities 1 to 100.  The Huffman and quantisation tables are statics shared by all
encoders, so claims about a whole image hold when no other encoder is opened meanwhile.  The statics `m_huff_bits` and
`m_huff_val` are the constant tables they are copied from.  `ll_cam_memcpy` returns at most `pixels_per_dma`, and the
application gives back only frames it holds.  A display transfer that was started without blocking has ended before
the next call.

## Model

| member | source | states |
|---|---|---|
| Huffman.ComputeHuffmanTable | libraries-esp32-camera-master/conversions/jpge.cpp:146-179 | the two table rows hold the canonical code and size of every value, zero where there is none; no other row changes |
| Huffman.ExpandSizes | libraries-esp32-camera-master/conversions/jpge.cpp:153-161 | the size list of T.81 figure C.1 with its zero sentinel |
| Huffman.AssignCodes | libraries-esp32-camera-master/conversions/jpge.cpp:163-171 | the loops end and produce the codes of T.81 figure C.2 |
| Huffman.FitsIffWeightedCount | libraries-esp32-camera-master/conversions/jpge.cpp:154-171 | every code fits its size if and only if the counts satisfy the Kraft inequality |
| Huffman.CodeByLength | libraries-esp32-camera-master/conversions/jpge.cpp:163-171 | the codes of one length are consecutive numbers from twice the weighted count of the shorter ones on |
| Huffman.PrefixFree | libraries-esp32-camera-master/conversions/jpge.cpp:163-171 | when the codes fit, none is a prefix of another |
| Huffman.NextCodeIsKraft | libraries-esp32-camera-master/conversions/jpge.cpp:163-171 | the running code counter, scaled to 16 bits, is the Kraft sum of the codes given out |
| Huffman.CounterBound | libraries-esp32-camera-master/conversions/jpge.cpp:163-171 | for any counts the 32-bit counter cannot wrap: it never exceeds 2^24, and 2^23 up to length 16; both loops assert it |
| T81Decoder.DecodeCodeWord | libraries-esp32-camera-master/conversions/jpge.cpp:163-178 | the DECODE procedure of T.81 F.2.2.3, from the counts alone, recovers the value of every code word and stops at its end |
| Entropy.ExtendUndoesMagnitude | libraries-esp32-camera-master/conversions/jpge.cpp:426-439 | RECEIVE and EXTEND undo the value bits of positive and negative numbers |
| Entropy.DecodeRun | libraries-esp32-camera-master/conversions/jpge.cpp:441-461 | a zero run of any length, with its ZRL codes, and the coefficient behind it are recovered |
| Entropy.BlockRoundTrip | libraries-esp32-camera-master/conversions/jpge.cpp:404-466 | the T.81 block decoder recovers all 64 coefficients of every block in the baseline ranges and stops at its end |
| StandardTables.DcLumCanCode | libraries-esp32-camera-master/conversions/jpge.cpp:43-44 | the DC luminance table is valid and has a code for every difference category to 11 |
| StandardTables.AcLumCanCode | libraries-esp32-camera-master/conversions/jpge.cpp:45-53 | the AC luminance table is valid and has codes for EOB, ZRL and every run with categories 1 to 10 |
| StandardTables.DcChromaCanCode | libraries-esp32-camera-master/conversions/jpge.cpp:54-55 | the same for DC chrominance |
| StandardTables.AcChromaCanCode | libraries-esp32-camera-master/conversions/jpge.cpp:56-64 | the same for AC chrominance |
| AnnexK.DcLumIsK3 | libraries-esp32-camera-master/conversions/jpge.cpp:43-44 | the code written for each luminance DC category is the one printed in T.81 table K.3 |
| AnnexK.DcChromaIsK4 | libraries-esp32-camera-master/conversions/jpge.cpp:54-55 | for chrominance the one in table K.4 |
| AnnexK.LumEndOfBlock | libraries-esp32-camera-master/conversions/jpge.cpp:45-53 | end of block is 1010 for luminance, as in table K.5 |
| AnnexK.ChromaEndOfBlock | libraries-esp32-camera-master/conversions/jpge.cpp:56-64 | and 00 for chrominance, as in table K.6 |
| Dct.DCT2D | libraries-esp32-camera-master/conversions/jpge.cpp:129-143 | the in-place two-pass transform computes the forward transform of the old contents |
| Dct.ButterflyIsMatrix | libraries-esp32-camera-master/conversions/jpge.cpp:112-127 | while no cast truncates, the butterflies compute a fixed 8 by 8 integer matrix |
| Dct.MatrixIsBasis | libraries-esp32-camera-master/conversions/jpge.cpp:113-127 | each output is the product with one row of that matrix |
| Dct.NearlyOrthogonal | libraries-esp32-camera-master/conversions/jpge.cpp:113-127 | the rows are orthogonal and of equal length to one part in 2^13: a scaled rotation, as a DCT is |
| Cosines.BasisIsCosine | libraries-esp32-camera-master/conversions/jpge.cpp:113-127 | row k of the matrix holds cos((2 i + 1) k pi / 16), to one unit in 13 bits |
| Cosines.HalfAngle | libraries-esp32-camera-master/conversions/jpge.cpp:113-127 | these cosines fall from 1 to 0 over a quarter turn and satisfy the half-angle formula, which determines them |
| Dct.ForwardRange | libraries-esp32-camera-master/conversions/jpge.cpp:109-143 | for all samples in -128..127 no int16 cast truncates, DC lies in -1024..1016 and every AC value within 1020 |
| Dct.DcIsMean | libraries-esp32-camera-master/conversions/jpge.cpp:127-142 | the DC value is the rounded eighth of the sum of the samples |
| Reconstruct.BackOfProduct | libraries-esp32-camera-master/conversions/jpge.cpp:113-127 | the transposed matrix, the inverse DCT of T.81 A.3.3 in fixed point, undoes the matrix up to the rounding of its constants |
| Reconstruct.RowClose | libraries-esp32-camera-master/conversions/jpge.cpp:129-136 | 2^11 times the result of the row pass is within 2^10 of the product with the matrix |
| Reconstruct.ColumnClose | libraries-esp32-camera-master/conversions/jpge.cpp:137-142 | 2^18 times the result of the column pass is within 2^17 of the product |
| Reconstruct.SamplesRecovered | libraries-esp32-camera-master/conversions/jpge.cpp:129-143 | coefficients within h of the transform of any block give every sample back to less than 7 h + 4 levels |
| Quantise.ZagInverse | libraries-esp32-camera-master/conversions/jpge.cpp:40 | the scan order is the inverse of T.81 figure A.6, so every position is visited once |
| AnnexK.ZigZag | libraries-esp32-camera-master/conversions/jpge.cpp:40 | the scan runs along the diagonals in turn upwards and downwards, its second half is the first half turned round |
| AnnexK.QualityFifty | libraries-esp32-camera-master/conversions/jpge.cpp:41-42 | at quality 50 every step, at its zig-zag place, is the one printed in T.81 table K.1 for luminance and K.2 for chrominance |
| AnnexK.BetterQuality | libraries-esp32-camera-master/conversions/jpge.cpp:549-561 | from quality 50 on a step is 200 - 2 q percent of the printed one, rounded to nearest, and 1 where that is below one half |
| AnnexK.WorseQuality | libraries-esp32-camera-master/conversions/jpge.cpp:549-561 | below quality 50 it is 5000 / q percent, within the error of two roundings, and at most 255 |
| Quantise.TableFalls | libraries-esp32-camera-master/conversions/jpge.cpp:549-561 | better quality never coarsens a step |
| Quantise.RoundError | libraries-esp32-camera-master/conversions/jpge.cpp:385-398 | a coefficient times its step is within half a step of the value |
| Quantise.RoundNearest | libraries-esp32-camera-master/conversions/jpge.cpp:385-398 | no other multiple of the step is closer |
| Quantise.LoadQuantizedCoefficients | libraries-esp32-camera-master/conversions/jpge.cpp:379-402 | the coefficients of the samples with the table of the component, in scan order |
| Quantise.QuantisedBlock | libraries-esp32-camera-master/conversions/jpge.cpp:379-402 | every block of samples gives coefficients in the baseline ranges, each within half a step at its zig-zag position |
| Stuffing.UnstuffUndoesStuff | libraries-esp32-camera-master/conversions/jpge.cpp:202-210 | a reader that drops stuffed zeros and stops at the first marker recovers the bytes exactly |
| Stuffing.NoMarkerInside | libraries-esp32-camera-master/conversions/jpge.cpp:205-207 | in the scan every 0xFF is followed by a zero |
| Stuffing.PackKeepsBits | libraries-esp32-camera-master/conversions/jpge.cpp:201-210 | the bytes contain the bits, all but an incomplete last byte |
| Stuffing.TakeFromRegister | libraries-esp32-camera-master/conversions/jpge.cpp:203-209 | taking the top byte and shifting in 32 bits leaves the remaining bits in place, whatever is above bit 24 |
| Output.MemoryStream.PutBuf | libraries-esp32-camera-master/conversions/to_jpg.cpp:195-210 | the buffer holds the first bytes of everything offered, as many as fit |
| Output.Writer.FlushOutputBuffer | libraries-esp32-camera-master/conversions/jpge.cpp:181-188 | what was emitted is offered to the stream, nothing lost or repeated |
| Output.Writer.EmitByte | libraries-esp32-camera-master/conversions/jpge.cpp:190-196 | one byte joins the emitted ones, across chunk boundaries of any size |
| Output.Writer.PutBits | libraries-esp32-camera-master/conversions/jpge.cpp:198-211 | the bytes out, unstuffed, and the register together hold every bit ever put |
| Scan.ScanRoundTrip | libraries-esp32-camera-master/conversions/jpge.cpp:404-466 | every coefficient of every block of any sequence of blocks is recovered, with the predictors of three components carried along |
| Scan.ScanBytesRoundTrip | libraries-esp32-camera-master/conversions/jpge.cpp:666-667 | the same through padding with ones, byte stuffing and the search for the next marker |
| Picture.GreyStaysGrey | libraries-esp32-camera-master/conversions/jpge.cpp:86-107 | equal red, green and blue convert to that luminance and neutral colour |
| Colour.LumaIsStandard | libraries-esp32-camera-master/conversions/jpge.cpp:86-107 | for all channels the luminance is 0.299 R + 0.587 G + 0.114 B, to just over half a level |
| Colour.CbIsStandard | libraries-esp32-camera-master/conversions/jpge.cpp:86-107 | Cb - 128 is (B - Y) / 1.772 to half a level, clamp included |
| Colour.CrIsStandard | libraries-esp32-camera-master/conversions/jpge.cpp:86-107 | Cr - 128 is (R - Y) / 1.402 likewise |
| Colour.ColourRecovered | libraries-esp32-camera-master/conversions/jpge.cpp:86-107 | the inverse conversion returns each channel to within 1.4 levels |
| Colour.QuadIsMean | libraries-esp32-camera-master/conversions/jpge.cpp:346-362 | 4 times a sample is the sum of its four pixels, up to 3 less on even places of the block, from 1 less to 2 more on odd ones |
| Colour.PairIsMean | libraries-esp32-camera-master/conversions/jpge.cpp:364-377 | twice a sample is the sum of its two pixels or one less |
| Colour.GreyLikeColour | libraries-esp32-camera-master/conversions/jpge.cpp:516-526 | grey source lines are coded like colour lines with equal channels |
| Colour.EdgeRepeats | libraries-esp32-camera-master/conversions/jpge.cpp:528-540 | beyond the edges the last column and the last line go on |
| Picture.BlockAccuracy | libraries-esp32-camera-master/conversions/jpge.cpp:468-473 | what a decoder multiplies back is within half a step of the transform of the padded pixels |
| Picture.ImageStable | libraries-esp32-camera-master/conversions/jpge.cpp:541-545 | later scanlines do not change what complete MCU rows were coded as |
| Encoder.Statics.ComputeQuantTable | libraries-esp32-camera-master/conversions/jpge.cpp:549-561 | the table of this quality, entries 1 to 255, the other table untouched |
| Encoder.Statics.Prepare | libraries-esp32-camera-master/conversions/jpge.cpp:616-635 | after opening, cached or not, all tables are those of the current quality |
| Encoder.JpegEncoder.PutSymbol | libraries-esp32-camera-master/conversions/jpge.cpp:437-438 | the code word of the symbol joins the bits |
| Encoder.JpegEncoder.CodeDc | libraries-esp32-camera-master/conversions/jpge.cpp:424-439 | the DC difference is coded and the predictor updated, for that component only |
| Encoder.JpegEncoder.CodeZrls | libraries-esp32-camera-master/conversions/jpge.cpp:447-451 | sixteen zeros per ZRL, the remainder returned |
| Encoder.JpegEncoder.CodeCoefficientsPassTwo | libraries-esp32-camera-master/conversions/jpge.cpp:404-466 | exactly the bits of the block join the scan |
| Encoder.JpegEncoder.CodeBlock | libraries-esp32-camera-master/conversions/jpge.cpp:468-473 | the scan then codes one block more: the quantised transform of the loaded samples |
| Encoder.JpegEncoder.LoadDirect | libraries-esp32-camera-master/conversions/jpge.cpp:319-344 | the samples of the block at its place in the padded image |
| Encoder.JpegEncoder.LoadQuad | libraries-esp32-camera-master/conversions/jpge.cpp:346-362 | 2 by 2 averages with the rounding bias alternating along and across |
| Encoder.JpegEncoder.LoadPair | libraries-esp32-camera-master/conversions/jpge.cpp:364-377 | 2 by 1 averages |
| Encoder.JpegEncoder.ProcessMcuRow | libraries-esp32-camera-master/conversions/jpge.cpp:475-508 | all MCUs of the row, each with its blocks in the order of T.81 A.2.3, under every subsampling |
| Encoder.JpegEncoder.LoadMcu | libraries-esp32-camera-master/conversions/jpge.cpp:510-546 | between scanlines the complete MCU rows of the image so far are coded and the rest is in the line buffer, padded by repeating the last pixel |
| Encoder.JpegEncoder.ProcessEndOfImage | libraries-esp32-camera-master/conversions/jpge.cpp:655-672 | the last row is padded by repeating the last line; the stream has been offered header, scan, ones to a byte boundary and EOI |
| Encoder.JpegEncoder.JpgOpen | libraries-esp32-camera-master/conversions/jpge.cpp:616-653 | tables ready, predictors and register clear, exactly the header emitted |
| Encoder.JpegEncoder.ProcessScanline | libraries-esp32-camera-master/conversions/jpge.cpp:706-720 | refuses after the end and changes nothing then; otherwise takes the line or finishes the file |
| Encoder.Init | libraries-esp32-camera-master/conversions/jpge.cpp:691-698 | an encoder exactly for acceptable arguments, its header emitted |
| Headers.EmitHeader | libraries-esp32-camera-master/conversions/jpge.cpp:645-650 | the marker segments in order |
| Headers.App0IsJfif | libraries-esp32-camera-master/conversions/jpge.cpp:223-238 | the first segment is the JFIF identification, version 1.1, density 1:1, no thumbnail |
| Headers.EmitDqt | libraries-esp32-camera-master/conversions/jpge.cpp:241-251 | one DQT segment for grey, two for colour, with the tables of the quality |
| Headers.EmitDht | libraries-esp32-camera-master/conversions/jpge.cpp:271-287 | a DHT segment with the right length, counts and values |
| Headers.EmitSof | libraries-esp32-camera-master/conversions/jpge.cpp:254-268 | the frame header, height before width, sampling factors per component |
| Headers.EmitSos | libraries-esp32-camera-master/conversions/jpge.cpp:301-317 | the scan header |
| ToJpg.ConvertLineFormat | libraries-esp32-camera-master/conversions/to_jpg.cpp:56-76 | grey, 24-bit and 16-bit source lines as encoder lines |
| ToJpg.ConvertImage | libraries-esp32-camera-master/conversions/to_jpg.cpp:101-150 | succeeds exactly for non-empty images, and then the stream was offered the file of the image |
| ToJpg.Fmt2Jpg | libraries-esp32-camera-master/conversions/to_jpg.cpp:218-240 | returns the first 131072 bytes of that file |
| FileRoundTrip.ImageComponents | libraries-esp32-camera-master/conversions/jpge.cpp:475-546 | exactly rows times MCUs per row MCUs are coded, each with the block pattern of the subsampling |
| FileRoundTrip.OrderOfFile | libraries-esp32-camera-master/conversions/jpge.cpp:254-268 | the frame header makes a T.81 decoder expect the blocks in the order they are coded |
| FileRoundTrip.ReadDhts | libraries-esp32-camera-master/conversions/jpge.cpp:290-298 | a decoder rebuilds the encoder's Huffman tables from the DHT segments |
| FileRoundTrip.DecodeUndoesEncode | libraries-esp32-camera-master/conversions/jpge.cpp:564-672 | for every image and quality the decoder reads back size, tables and every coefficient of every block, if and only if width and height are below 65536 |
| FileRoundTrip.TooWide | libraries-esp32-camera-master/conversions/jpge.cpp:564-672 | a line of 65536 pixels is accepted and coded, but its size is not read back |
| PixelRoundTrip.ImageBlocksAt | libraries-esp32-camera-master/conversions/jpge.cpp:475-546 | where each block of each MCU stands in the scan |
| PixelRoundTrip.BlockRecovered | libraries-esp32-camera-master/conversions/jpge.cpp:379-402 | under every subsampling each sample of a decoded block is less than 7 h + 4 levels from the padded or averaged pixels it stands for, when no step exceeds 2 h + 1 |
| PixelRoundTrip.LumaPlace | libraries-esp32-camera-master/conversions/jpge.cpp:475-508 | in which block of which MCU, and where in it, the luminance of pixel (x, y) stands, under every subsampling |
| PixelRoundTrip.QuarterColourPlace | libraries-esp32-camera-master/conversions/jpge.cpp:475-508 | where the colour samples of a 2 by 2 square stand, and that 4 times each is the sum of the square to within 3 |
| PixelRoundTrip.LumaRecovered | libraries-esp32-camera-master/conversions/jpge.cpp:475-508 | under every subsampling the luminance of each pixel comes back at its place to less than 7 h + 4 levels |
| PixelRoundTrip.ColourRecovered | libraries-esp32-camera-master/conversions/jpge.cpp:346-362 | with the subsampling of `fmt2jpg` each colour component of each square comes back that closely to its mean |
| PixelRoundTrip.ColourFramePixel | libraries-esp32-camera-master/conversions/to_jpg.cpp:56-76 | red, green and blue of a pixel are the bytes or bit fields of the frame buffer at its place |
| PixelRoundTrip.ColourFrameLuma | libraries-esp32-camera-master/conversions/to_jpg.cpp:218-240 | from what `fmt2jpg` returns for a small colour frame 0.299 R + 0.587 G + 0.114 B of every pixel can be computed that closely |
| PixelRoundTrip.GreyPixelRecovered | libraries-esp32-camera-master/conversions/jpge.cpp:319-344 | each pixel of a grey image comes back that closely at its place |
| PixelRoundTrip.FinestGreyPixel | libraries-esp32-camera-master/conversions/jpge.cpp:549-561 | at quality 100 every grey pixel comes back to less than four levels |
| PixelRoundTrip.GreyFrameRecovered | libraries-esp32-camera-master/conversions/to_jpg.cpp:218-240 | every byte of a small grey frame buffer can be computed that closely from what `fmt2jpg` returns |
| FileSize.BlockLength | libraries-esp32-camera-master/conversions/jpge.cpp:404-466 | any block takes 4 to 1665 bits |
| FileSize.FileLength | libraries-esp32-camera-master/conversions/jpge.cpp:640-672 | whatever the pixels and the quality, a file of n blocks has its header, at least n/2 and at most about 417 n bytes |
| CutFile.PrefixFails | libraries-esp32-camera-master/conversions/to_jpg.cpp:201-204 | no proper prefix of an encoded file decodes |
| CutFile.DecodesIffFits | libraries-esp32-camera-master/conversions/to_jpg.cpp:218-240 | what `fmt2jpg` returns decodes if and only if the file has at most 131072 bytes, although success is reported either way |
| CutFile.LargeFrameUnreadable | libraries-esp32-camera-master/conversions/to_jpg.cpp:218-240 | frames of 262144 blocks or more, whatever the pixels and the quality: success is reported and the result cannot be decoded |
| CutFile.SmallFrameReadable | libraries-esp32-camera-master/conversions/to_jpg.cpp:218-240 | frames of at most 313 blocks, whatever the pixels and the quality: the result decodes to the frame |
| CutFile.SuccessUnreadable | libraries-esp32-camera-master/conversions/to_jpg.cpp:218-240 | a concrete frame whose result is reported as a success and cannot be read |
| CamHal.SendOwned | libraries-esp32-camera-master/driver/cam_hal.c:171-203 | handing a frame over keeps the partition of frames into enabled, queued, application's and in transit |
| CamHal.AppOwned | libraries-esp32-camera-master/driver/cam_hal.c:446-483 | so do taking, giving and the interrupt |
| CamHal.TaskLeavesOthers | libraries-esp32-camera-master/driver/cam_hal.c:127-212 | no step of the task touches a queued frame or one of the application |
| CamHal.AlwaysInv | libraries-esp32-camera-master/driver/cam_hal.c:61-213 | all invariants hold in every state of every interleaving |
| CamHal.OneOwner | libraries-esp32-camera-master/driver/cam_hal.c:115-213 | each frame is exactly one of enabled, queued once, with the application, in the task's hands |
| CamHal.FillingIsPrivate | libraries-esp32-camera-master/driver/cam_hal.c:91-145 | a frame being filled is enabled, not queued and not held, also when the interrupt forces IDLE |
| CamHal.SendsSucceed | libraries-esp32-camera-master/driver/cam_hal.c:185-202 | the send after a pop never fails; with a queue as long as the frame count the first send never fails |
| CamHal.DeliveredInOrder | libraries-esp32-camera-master/driver/cam_hal.c:446-473 | frames leave in strictly increasing order of capture; captured = delivered + dropped + queued + being checked + in transit |
| CamHal.DeliveredWhole | libraries-esp32-camera-master/driver/cam_hal.c:131-184 | no frame outgrows its buffer; raw frames reach the application with exactly the frame size |
| CamRuns.CompleteIsKept | libraries-esp32-camera-master/driver/cam_hal.c:175-203 | over all runs: a good capture (raw of the full size, JPEG, or in PSRAM mode) whose hand-over begins is queued, being checked or delivered when the task looks for its next frame, or lacked its end marker; if and only if the task did not find the queue empty after a failed send |
| CamRuns.NoEmptyPop | libraries-esp32-camera-master/driver/cam_hal.c:369-373 | with a queue for every frame that never happens |
| CamRuns.GoodCaptureLost | libraries-esp32-camera-master/driver/cam_hal.c:185-203 | in GRAB_LATEST mode it can: a run in which a good capture is lost |
| CamRuns.WrongSizeIsDropped | libraries-esp32-camera-master/driver/cam_hal.c:179-184 | a raw frame of another size is not handed over and is free again |
| CamRuns.LeavesLine | libraries-esp32-camera-master/driver/cam_hal.c:185-203 | a capture leaves the line only for want of an end marker, or as the oldest one queued, popped after a send found the queue full |
| CamRuns.VsyncHandsOver | libraries-esp32-camera-master/driver/cam_hal.c:150-204 | a VSYNC event during a frame captures it, and its capture is in the line afterwards exactly when it is good, with the exceptions above |
| CamRuns.LengthIsCopied | libraries-esp32-camera-master/driver/cam_hal.c:131-173 | from the start of a frame to its hand-over its length is the sum of what was copied and the counter the number of transfers |
| CamRuns.EofHandled | libraries-esp32-camera-master/driver/cam_hal.c:131-149 | an EOF event adds what is copied and counts it, or leaves the frame alone when a transfer no longer fits; only a missing start marker ends the frame |
| CamRuns.IdleEvent | libraries-esp32-camera-master/driver/cam_hal.c:115-127 | while no frame is being filled EOF is ignored and VSYNC starts a frame |
| CamRuns.StartOutcome | libraries-esp32-camera-master/driver/cam_hal.c:76-89 | after a start the frame is enabled and empty, the counter zero and the task reading; without one it is idle |
| CamHal.ScanSucceeds | libraries-esp32-camera-master/driver/cam_hal.c:61-74 | a search for a free frame that begins when the application has none fails only when all frames are queued, and never in GRAB_LATEST mode with more than one frame |
| CamBuffers.CamVerifyJpegEoi | libraries-esp32-camera-master/driver/cam_hal.c:45-59 | the last FF D9 at offset 1 or later, or -1 exactly when there is none |
| CamBuffers.CutFrame | libraries-esp32-camera-master/driver/cam_hal.c:452-463 | a returned JPEG frame ends with its last FF D9; it is given back exactly when there is none |
| CamBuffers.CamGetNextFrame | libraries-esp32-camera-master/driver/cam_hal.c:61-74 | the current frame if enabled, else the first enabled one, false exactly when none is |
| CamBuffers.CamGive | libraries-esp32-camera-master/driver/cam_hal.c:475-483 | enables that frame only |
| CamBuffers.ScanFinds | libraries-esp32-camera-master/driver/cam_hal.c:64-69 | left alone, the stepwise scan of the state machine finds the same frame as the loop |
| Circle.MidpointStep | libraries/Adafruit_GFX_Library/Adafruit_GFX.cpp:374-382 | the loop keeps f = (x+1)^2 + y^2 - y - r^2 and the two differences, within linear bounds |
| Circle.MidpointNear | libraries/Adafruit_GFX_Library/Adafruit_GFX.cpp:374-392 | every point satisfies abs(x^2 + y^2 - r^2) <= y, and up to the diagonal y is the nearest integer height |
| Circle.MidpointFits | libraries/Adafruit_GFX_Library/Adafruit_GFX.cpp:362-366 | the int16 loop variables do not wrap |
| Circle.DrawCircle | libraries/Adafruit_GFX_Library/Adafruit_GFX.cpp:357-394 | the four axis pixels and the eight reflections of one near point for every x until the diagonal |
| Circle.FillCircleHelper | libraries/Adafruit_GFX_Library/Adafruit_GFX.cpp:471-511 | on each wanted side every column at distance 1 to r is drawn exactly once, centred, with the height of the outline |
| Circle.HeightUnique | libraries/Adafruit_GFX_Library/Adafruit_GFX.cpp:496-508 | the condition on the height of a filled column leaves one value |
| CircleAgreement.HeightIsOctant | libraries/Adafruit_GFX_Library/Adafruit_GFX.cpp:374-392 | that height is the one of the outline's octant point in the column, or of the mirrored point beyond the diagonal |
| CircleAgreement.CircleIsEdgeOfDisc | libraries/Adafruit_GFX_Library/Adafruit_GFX.cpp:357-511 | in every column of the disc that `fillCircle` draws, the top and bottom pixel are pixels of `drawCircle`, and no pixel of the circle lies outside |
| Circle.FillCircle | libraries/Adafruit_GFX_Library/Adafruit_GFX.cpp:452-458 | every column from x0-r to x0+r is drawn exactly once, for every r |
| Circle.FillRoundRect | libraries/Adafruit_GFX_Library/Adafruit_GFX.cpp:574-586 | every column of the rectangle is drawn exactly once, vertically centred |
| Line.WriteLine | libraries/Adafruit_GFX_Library/Adafruit_GFX.cpp:132-173 | the pixels of a closed form, max(abs dx, abs dy) + 1 of them, `err` within 0 to dx-1 |
| Line.Endpoints | libraries/Adafruit_GFX_Library/Adafruit_GFX.cpp:143-173 | the line leads from one end to the other |
| Line.Accuracy | libraries/Adafruit_GFX_Library/Adafruit_GFX.cpp:161-172 | after k steps with m sideways, 2 abs(m dx - k dy) <= dx |
| Line.Connected | libraries/Adafruit_GFX_Library/Adafruit_GFX.cpp:161-172 | neighbouring pixels touch |
| Line.Reversible | libraries/Adafruit_GFX_Library/Adafruit_GFX.cpp:137-146 | drawing from the other end writes the same pixels in the same order |
| Triangle.FillTriangle | libraries/Adafruit_GFX_Library/Adafruit_GFX.cpp:619-701 | the running sums give the longhand crossings of the comments for the vertices sorted by line; no division by zero, sums fit int32, crossings and widths int16 |
| Triangle.TriangleCovered | libraries/Adafruit_GFX_Library/Adafruit_GFX.cpp:669-699 | every line from top to bottom exactly once, inside the extent of the triangle, all vertices covered |
| Triangle.CrossingTowardsStart | libraries/Adafruit_GFX_Library/Adafruit_GFX.cpp:674-694 | a crossing never lies further from the start of its edge than the true edge: division rounds toward zero |
| Triangle.CrossingAccurate | libraries/Adafruit_GFX_Library/Adafruit_GFX.cpp:674-694 | span ends are less than a pixel from the true edges |
| Canvas.BitIsDigit | libraries/Adafruit_GFX_Library/Adafruit_GFX.cpp:1785-1821 | pixels fill a byte from its most significant bit on |
| Canvas.GfxCanvas1.QuarterTurns | libraries/Adafruit_GFX_Library/Adafruit_GFX.cpp:1791-1812 | rotation r is r quarter turns clockwise: where the origin goes, and which way a step to the right or down leads |
| Canvas.GfxCanvas1.DrawPixel | libraries/Adafruit_GFX_Library/Adafruit_GFX.cpp:1785-1821 | one bit, at the rotated place, nothing off the canvas |
| Canvas.GfxCanvas1.GetPixel | libraries/Adafruit_GFX_Library/Adafruit_GFX.cpp:1832-1878 | reads the bit that drawPixel paints |
| Canvas.GfxCanvas1.WriteLine | libraries/Adafruit_GFX_Library/Adafruit_GFX.cpp:161-172 | the base class's line paints the bits of its pixels |
| Canvas.GfxCanvas1.DrawFastRawVLine | libraries/Adafruit_GFX_Library/Adafruit_GFX.cpp:2013-2041 | exactly the bits of the column, one row apart |
| Canvas.GfxCanvas1.DrawFastRawHLine | libraries/Adafruit_GFX_Library/Adafruit_GFX.cpp:2052-2107 | exactly the bits of the run, over partial and whole bytes |
| Canvas.GfxCanvas1.DrawFastVLine | libraries/Adafruit_GFX_Library/Adafruit_GFX.cpp:1902-1947 | under every rotation and clipping exactly the bits the base class paints for the same line |
| Canvas.GfxCanvas1.DrawFastHLine | libraries/Adafruit_GFX_Library/Adafruit_GFX.cpp:1958-2002 | the same for horizontal lines |
| Canvas.GfxCanvas1.FastEqualsBase | libraries/Adafruit_GFX_Library/Adafruit_GFX.cpp:265-287 | fast lines leave the same buffer as the base class, padding bits included |
| FillCache.HighByteFirst | libraries/Adafruit_GFX_Library/Adafruit_SPITFT.cpp:1195-1254 | the two bytes of a pixel are its colour, high byte first, also when it is stored swapped |
| FillCache.Spitft.Fill | libraries/Adafruit_GFX_Library/Adafruit_SPITFT.cpp:1225-1241 | the cached part of the buffer always holds the byte-swapped last colour, and covers the request |
| FillCache.Spitft.WriteColor | libraries/Adafruit_GFX_Library/Adafruit_SPITFT.cpp:1140-1285 | after any history of calls the descriptor chain sends exactly len copies of the colour, high byte first, as the plain loop would |
| FillCache.Spitft.WritePixels | libraries/Adafruit_GFX_Library/Adafruit_SPITFT.cpp:1014-1103 | the given pixels go out in order, swapped or as they are, and the cache is forgotten |
| FillCache.ChunkCount | libraries/Adafruit_GFX_Library/Adafruit_SPITFT.cpp:1243-1251 | the number of descriptors is the number of pieces |
| Crc.Crc | libraries-master/tools/elf2bin.py:103-120 | the loops compute the shift register over the bits of the data |
| CrcPolynomial.CrcIsRemainder | libraries-master/tools/elf2bin.py:103-120 | the CRC is a remainder of the data, times x^32 and with the start value in front, by x^32 + x^26 + x^23 + x^22 + x^16 + x^12 + x^11 + x^10 + x^8 + x^7 + x^5 + x^4 + x^2 + x + 1 over GF(2) |
| CrcPolynomial.RemainderUnique | libraries-master/tools/elf2bin.py:103-120 | there is only one remainder |
| Crc.UpdateJoin | libraries-master/cores/esp8266/Esp.cpp:467-472 | a CRC computed in pieces is the CRC of the whole |
| Crc.StepInjective | libraries-master/tools/elf2bin.py:111-119 | a step loses no information |
| Crc.FoldWindow | libraries-master/tools/elf2bin.py:110-119 | feeding up to 32 bits is adding them to the register beforehand |
| Crc.BurstChangesCrc | libraries-master/tools/elf2bin.py:103-120 | images that differ only within 32 consecutive bits have different CRCs |
| Crc.StoreWord | libraries-master/tools/elf2bin.py:122-128 | four bytes, least significant first, nothing else changes |
| Crc.AddCrc | libraries-master/tools/elf2bin.py:130-142 | size and CRC of the blanked image in the two fields; too short an image is an error |
| Crc.StampedTwice | libraries-master/tools/elf2bin.py:134-139 | running it again changes nothing |
| Crc.CheckAccepts | libraries-master/cores/esp8266/Esp.cpp:460-474 | the device accepts the image, whatever follows it in the flash |
| Crc.CheckDecides | libraries-master/cores/esp8266/Esp.cpp:460-474 | with a right size field the device accepts exactly the right CRC field |
| Crc.BurstRejected | libraries-master/cores/esp8266/Esp.cpp:460-474 | the device rejects an image damaged by a burst of at most 32 bits in front of the two fields, within the CRC word or behind it |

## Left out

- FreeRTOS, interrupts, DMA hardware and every `ll_cam_*` function: assumptions stated above, choices of the environment in the state machine.
- The event queue's length: any event may arrive whenever the task waits, and the interrupt may force IDLE at any time, which covers every queue length.
- `cam_take` timeouts and the number of its retries: a take may fail at any time; nothing is claimed about when it returns.  One consumer takes frames.
- `cam_verify_jpeg_soi` and PSRAM-mode lengths: the outcome and the length are choices of the environment, because they depend on hardware buffers.
- FillingIsPrivate: does not cover DMA engines that keep writing after `ll_cam_stop`, because those functions are not in the repository.
- YUV422 input of `convert_line_format`, `callback_stream`, BMP and RGB conversions: table lookups that would add easy members.
- ToJpg.ConvertLineFormat: covers three pixel formats; for formats without a branch the source leaves the line buffer uninitialised.
- Allocation failures, logging and yield calls.
- `jpeg_encoder::deinit` and reuse of one encoder object: each image gets a new object, as in `convert_image`.
- FileDecoder: reads up to three components in one interleaved scan with 8-bit tables, which is what the encoder writes.
- `drawCircleHelper`, `drawRoundRect`, `drawTriangle`, `drawLine`, `fillScreen`, text and bitmap drawing of Adafruit_GFX.
- Zero and negative line lengths of the canvas: the base class and the canvas give them different meanings.
- `GFXcanvas16` and `GFXcanvas8`: the 16-bit canvas's raw line uses an int16 index that is too small for large canvases.
- Canvases whose buffer needs more than 65535 bytes: the constructor computes the size in a uint16.
- Platform variants of `writeColor` and `writePixels` other than the SAMD DMA branch, and displays less than three pixels wide or high, for which a second descriptor is not allocated.
- Crc.BurstRejected: does not cover bursts that touch the size word, which changes how much the device reads, or that straddle an edge of the CRC word, where data and stored CRC change together.
- Frames of 314 to 262143 blocks: whether their file fits the buffer of `fmt2jpg` depends on the pixels and the quality, so for them only the exact condition on the length of the file is proved.
- Building the image (`write_bin`), its XOR checksum byte, toolchain calls and gzip.
- Sensor drivers, SCCB, I2C and SPI devices, NeoPixel timing, fingerprint packets, build and upload scripts.
