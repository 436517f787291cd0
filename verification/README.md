# Verified models of the pixel and bitstream code of v4l4j

The project models the self-contained code of the video conversion library and of the capture layer
above it, and proves what that code computes. Nothing in it needs a device. Each file is one module:

- `Bits`: bit sequences, the numbers they denote, and arithmetic shared by the rest.
- `JpglVlc`, `JpglReader`, `JpglSymbols`, `JpglBlock`: the entropy decoder of the JPGL format, from the
  code table and the 32-bit sliding bit reader up to a decoded 4x4 block.
- `Mr97310a`: the prefix code, the spatial predictor, whole frames, and the count of dropped frames.
- `Cpia1`: the stateful CPIA1 decoder, as a grammar of coded lines and an overlay on the committed frame.
- `Bayer`, `BayerChroma`: demosaicing against one rounded-mean formula, and the chroma planes.
- `Pixfmt`: packed YUV 4:2:2 to planar, scalar and in the SSE2 and SSSE3 instruction sequences.
- `Hm12`: the two untiling decoders of the tiled HM12 format.
- `Memory`, `Planes`, `Crop`, `Flip`: cropping, bordering, reducing, flipping and rotating frames of one or three planes.
- `Mjpeg`: insertion of the standard Huffman tables into MJPEG frames.
- `JpegMemory`: the JPEG memory source and the growing memory destination.
- `Controls`: two-pass control enumeration and the normal form of controls and values.
- `Fraction`: approximating a number by a fraction.

Loops over buffers are methods on arrays, objects with fields are classes, and each method is proved
against a specification: a formula for every byte, a grammar, or a function of the bits read. Raw pointers
are indices; every index is proved to lie inside its buffer, except for the reads named at the end. `byte` is
0..255, and every narrowing cast to a byte is proved to lose nothing. Bit fields are written with division and
remainder where the C code shifts and masks, and the value of each field is tied to the bit sequence it stands
for. `Pixfmt` alone uses bit-vectors, since there the masks, shifts and saturating packs are the point.

Where a method and its specification share a formula or a table, lemmas say what comes of it without naming it:
closed forms for the bytes of a frame, round trips, waves and orthogonality of the inverse transform, bounds and
weights of predictions and means, margins, transposition, and the code books.

## Where the code does less than it seems to

- The start-of-image check of the MJPEG rewriter refuses a frame only if both bytes are wrong
  (`Mjpeg.StartCheck` says exactly when it agrees with a real check).
- Adding a border to a YUV 4:2:0 frame writes planes two lines too short when the heights do not differ by
  a multiple of four; cropping then loses chroma, and `Crop.ChromaLost` shows it for every such size.
- Both flips at once, done as a half turn, and the quarter turn ignore `bytesperline`: each is right for every
  frame of a format exactly if its lines are not padded, or there is at most one line, or the lines are empty
  (`Flip.TurnNeedsPacking`).
- Fitting an RGB24 frame into a larger size and back halves it on the way back if the larger size is at least
  twice the smaller: every source is returned exactly if that is not so, or the source has no pixel, or just one
  and the larger width and height are even (`Crop.CropReturns`).
- The control walk with the NEXT flag moves on by hand when an answer does not. That makes it end for every
  driver that never answers with an id behind the one asked for (`Controls.WalkTerminates`). With a driver that
  may fall back by one, it ends exactly if it never gets, from its start, to a request for the id behind c that
  is answered with c - 1 (`Controls.WalkEndsUnlessStuck`); a driver that offers its only control once more for
  the request behind it keeps it going forever (`Controls.StuckDriver`).
- A menu control whose minimum exceeds its maximum keeps that range, and no clamped value is accepted for
  it (`Controls.ClampedAccepted`).
- The fractional part of a negative number is taken without its sign: the fraction approximates its argument
  exactly if that is not negative or its remainder is within the tolerance (`Fraction.ApproximatesArgument`);
  minus a half becomes one over two (`Fraction.NegativeHalf`).
- The comment in `hm12.c` asks for heights that are multiples of 32. Exactly for multiples of 16 no luma sample
  lies at or behind the start of the chroma region (`Hm12.RegionsDisjoint`); with full lines and an even height,
  luma and chroma share a byte exactly if the height is neither such a multiple nor 2, 4, 8 or 20
  (`Hm12.RegionsOverlap`).
- What an MR97310A call stores stays within width * height bytes, for every source, exactly if the width is at
  least two or the height is zero (`Mr97310a.StoresFit`).
- A CPIA1 line of length zero looks up its terminator 2^32 - 1 bytes further on, and a coded pair may
  straddle the end of the buffer; the model ends exactly such calls with `OverRead` (`Cpia1.FrameLine`) and
  counts them as failures.

## Model

| member | source | states |
|---|---|---|
| JpglVlc.RowHasOneOwner | libvideo/libv4lconvert/jpgl.c:145-163 | each of the 1024 table rows matches exactly one of the 28 codewords, so the code is a complete prefix code |
| JpglVlc.PrefixIsMatch | libvideo/libv4lconvert/jpgl.c:145-163 | a row matches a codeword exactly when the ten bits of the row start with it |
| JpglVlc.UniquelyDecodable | libvideo/libv4lconvert/jpgl.c:124-164 | no bit sequence starts with the codes of two different symbols, signs and both escapes included |
| JpglVlc.Complete | libvideo/libv4lconvert/jpgl.c:124-164 | every sufficiently long bit sequence starts with the code of some symbol |
| JpglVlc.CodeWords | libvideo/libv4lconvert/jpgl.c:124-143 | the length and bits of each of the 28 words |
| JpglVlc.CodeMeanings | libvideo/libv4lconvert/jpgl.c:124-143 | the run and amplitude of each word; the end of block and the two escapes |
| JpglVlc.FrontSymbol | libvideo/libv4lconvert/jpgl.c:204-242 | a stream that starts with a word starts with that word's symbol: the next bit is the sign, and behind an escape nine more bits are shared out between run and amplitude |
| JpglVlc.SymbolMeaning | libvideo/libv4lconvert/jpgl.c:204-242 | a set sign bit makes the amplitude negative, in all three kinds of symbols |
| JpglReader.BitReader.Init | libvideo/libv4lconvert/jpgl.c:60-69 | the reader stands at the front of the plain bit stream of little-endian words, most significant bit first |
| JpglReader.StreamOrder | libvideo/libv4lconvert/jpgl.c:54-71 | of each pair of bytes the second one comes first in the stream, and of each byte the highest bit |
| JpglReader.BitReader.Peek | libvideo/libv4lconvert/jpgl.c:71-71 | a peek of up to 16 bits is the number denoted by the next bits of the stream |
| JpglReader.BitReader.Flush | libvideo/libv4lconvert/jpgl.c:73-82 | a flush of 0 to 16 bits drops exactly that many bits of the stream and keeps the reader's invariant |
| JpglReader.FlushKeeps | libvideo/libv4lconvert/jpgl.c:54-82 | after any flush the 32-bit window again holds the next 16 plus `cur_bit` bits, with zeros behind them |
| JpglSymbols.VlcTblInit | libvideo/libv4lconvert/jpgl.c:145-163 | the nested loops leave in every row the length, run and amplitude of the row's one codeword |
| JpglSymbols.ReadAC | libvideo/libv4lconvert/jpgl.c:204-242 | returns the run and signed amplitude of the symbol at the front of the stream, or the end of block, and leaves the reader exactly behind its code |
| JpglBlock.SymbolsRoundTrip | libvideo/libv4lconvert/jpgl.c:204-242 | for every finite symbol sequence, reading its code up to the end of block returns that sequence and the bits behind it |
| JpglBlock.CoefficientsIncrease | libvideo/libv4lconvert/jpgl.c:374-386 | on every stream the coefficient indices strictly increase and stay below 16, so the loop ends and no coefficient is stored twice |
| JpglBlock.CoefficientsOfSymbols | libvideo/libv4lconvert/jpgl.c:374-386 | the coefficients are those of the symbols, each run counted from the last one |
| JpglBlock.PlacesAreRunSums | libvideo/libv4lconvert/jpgl.c:374-386 | each coefficient comes behind all coded before it and all places their runs and its own leave out; a block is too long exactly if the last one would come behind place 15 |
| JpglBlock.BlockRoundTrip | libvideo/libv4lconvert/jpgl.c:374-386 | decoding a coded block places each amplitude where its run says, or reports a block that is too long |
| JpglBlock.ZigzagIsPermutation | libvideo/libv4lconvert/jpgl.c:282-400 | no two coefficients share a place in the block |
| JpglBlock.ZigzagOrder | libvideo/libv4lconvert/jpgl.c:286-297 | the zigzag walks the diagonals of the block in turn, each from where the one before ended |
| JpglBlock.QuantiserHalves | libvideo/libv4lconvert/jpgl.c:299-327 | the factors of a quantiser are half of the next one's, rounded down; that of the DC is the same for all |
| JpglBlock.IdctColumns | libvideo/libv4lconvert/jpgl.c:245-258 | the in-place column pass equals the pass on values; a column with one positive coefficient k becomes a wave that starts positive, changes its sign k times, and is mirrored or turned over at the middle |
| JpglBlock.IdctLines | libvideo/libv4lconvert/jpgl.c:260-275 | the in-place line pass equals the pass on values, and makes such waves of the lines, up to rounding |
| JpglBlock.ColumnValues | libvideo/libv4lconvert/jpgl.c:245-258 | the four values one coefficient of a column becomes, as multiples of it |
| JpglBlock.LineValues | libvideo/libv4lconvert/jpgl.c:260-275 | the four values one coefficient of a line becomes, in 22 bits of fixed point |
| JpglBlock.LinesOrthogonal | libvideo/libv4lconvert/jpgl.c:260-275 | the waves of different line coefficients are orthogonal |
| JpglBlock.ColumnsAdd | libvideo/libv4lconvert/jpgl.c:245-258 | the column pass of a sum is the sum of the column passes |
| JpglBlock.LinesAdd | libvideo/libv4lconvert/jpgl.c:260-275 | so is the line pass, but for one unit that rounding may lose |
| JpglBlock.DcShifts | libvideo/libv4lconvert/jpgl.c:245-275 | the DC is added to every pixel of the block |
| JpglBlock.CodedWave | libvideo/libv4lconvert/jpgl.c:282-400 | a block with one positive coefficient changes its sign around the DC along each line as often as the coefficient's column says, and along each column as often as its line says |
| JpglBlock.LargestAmplitude | libvideo/libv4lconvert/jpgl.c:299-400 | what the largest amplitude of each coefficient adds to the first pixel with the coarsest quantiser |
| JpglBlock.FlatBlock | libvideo/libv4lconvert/jpgl.c:245-275 | a block with nothing but a DC comes out of both passes as sixteen copies of it |
| JpglBlock.HeaderFields | libvideo/libv4lconvert/jpgl.c:282-400 | the shifts and masks of the eleven-bit header read its fields, and both DC forms are sign-extended |
| JpglBlock.DirectHeader | libvideo/libv4lconvert/jpgl.c:333-354 | a header of quantiser, a zero and eight bits of two's complement states the DC |
| JpglBlock.DifferentialHeader | libvideo/libv4lconvert/jpgl.c:333-354 | one of quantiser, a one and five bits of two's complement adds to the last DC |
| JpglBlock.ReadHeader | libvideo/libv4lconvert/jpgl.c:282-400 | returns the DC the header bits call for, direct or differential, and flushes exactly the header |
| JpglBlock.ReadCoefficients | libvideo/libv4lconvert/jpgl.c:374-386 | the array holds the dequantised coefficients at their zigzag places and zero elsewhere, the reader stands behind the end of block |
| JpglBlock.DecodeBlock | libvideo/libv4lconvert/jpgl.c:282-400 | on every padded stream the block is the inverse transform of the coefficients the stream codes, a wave around the DC if that is a single positive one, or the call fails because they are too many |
| Mr97310a.GetByte | libvideo/libv4lconvert/mr97310a.c:85-88 | the byte across two bytes is the next eight bits of the stream |
| Mr97310a.StreamOrder | libvideo/libv4lconvert/mr97310a.c:85-88 | of each byte the highest bit comes first |
| Mr97310a.WindowHasOneOwner | libvideo/libv4lconvert/mr97310a.c:39-83 | each of the 256 windows starts with exactly one of the eight codewords |
| Mr97310a.InitDecoder | libvideo/libv4lconvert/mr97310a.c:39-83 | every table entry holds the kind, length and value of the window's one codeword |
| Mr97310a.CodeWords | libvideo/libv4lconvert/mr97310a.c:39-83 | the length, bits and difference of each of the eight words |
| Mr97310a.CodeIsUnique | libvideo/libv4lconvert/mr97310a.c:39-83 | a bit sequence starts with exactly one pixel code |
| Mr97310a.StoresFit | libvideo/libv4lconvert/mr97310a.c:103-189 | the bytes calls store, up to and including the row behind which they stop, fit into width * height for every source exactly if the width is at least 2 or the height is zero |
| Mr97310a.Decoder.Predict | libvideo/libv4lconvert/mr97310a.c:132-159 | the pointers read the pixel two columns to the left, the one two rows up, and those two columns to the left and right of the latter, each where the pixel's part of the image uses it; with a width of one, the pixel two rows up and the byte to be overwritten |
| Mr97310a.InnerPrediction | libvideo/libv4lconvert/mr97310a.c:152-158 | in the middle of a row the prediction lies between its four neighbours; raising the left one or the one above by six raises it by two, raising those above to the left and right by one |
| Mr97310a.LeftPrediction | libvideo/libv4lconvert/mr97310a.c:145-148 | in the first two columns it lies between the pixels above and above to the right, which weigh a half each |
| Mr97310a.RightPrediction | libvideo/libv4lconvert/mr97310a.c:149-151 | in the last two columns it lies between the left one, the one above and the one above to the left, which weigh a third each |
| Mr97310a.TopPrediction | libvideo/libv4lconvert/mr97310a.c:142-144 | in the first two rows it is the pixel two to the left |
| Mr97310a.CodedPixelIs | libvideo/libv4lconvert/mr97310a.c:119-164 | a coded pixel is the prediction plus the difference, or the end of the range it leaves |
| Mr97310a.OverrunIs | libvideo/libv4lconvert/mr97310a.c:166-167 | a row overruns exactly if bits behind the source without its last twelve bytes have been read |
| Mr97310a.Decoder.CodedPixel | libvideo/libv4lconvert/mr97310a.c:119-164 | one pixel is the clipped value of the next code, exactly its bits are consumed, and no other byte changes; any width |
| Mr97310a.Decoder.DecodeRow | libvideo/libv4lconvert/mr97310a.c:103-164 | a row of any width extends the decoded pixels and bits by exactly the row's codes, and leaves what is behind them as it was |
| Mr97310a.Decoder.Decode | libvideo/libv4lconvert/mr97310a.c:90-193 | any width: what a call stores, also of an incomplete frame, are the pixels of the codes in the bits, up to the first row that overruns the source; every byte behind them is kept; return value and drop counter follow from whether the bits overran the source |
| Mr97310a.PixelsAreImage | libvideo/libv4lconvert/mr97310a.c:103-164 | for widths of at least two these pixels are the image of the codes, whatever the buffer held before |
| Mr97310a.CodesFromEncoded | libvideo/libv4lconvert/mr97310a.c:103-164 | reading the bits of a code sequence gives that sequence back |
| Mr97310a.ImageOfReproducing | libvideo/libv4lconvert/mr97310a.c:119-164 | codes that reproduce an image pixel by pixel have that image |
| Mr97310a.RoundTrip | libvideo/libv4lconvert/mr97310a.c:103-164 | for every image and every choice of codes that reproduces it, decoding the bits returns the codes and the image |
| Mr97310a.DecodeUndoesCoding | libvideo/libv4lconvert/mr97310a.c:90-193 | what the decoder makes of the bits of an image's codes is that image, and the bits it uses up are exactly the codes' |
| Mr97310a.DroppedOverRuns | libvideo/libv4lconvert/mr97310a.c:166-192 | over any run of frames the counter is the length of the current streak of incomplete frames modulo three, and every third of a streak is reported as success |
| Cpia1.LineIsUnique | libvideo/libv4lconvert/cpia.c:136-194 | a line has at most one reading as skips and coded pairs that covers its width |
| Cpia1.ReadOp | libvideo/libv4lconvert/cpia.c:157-188 | one turn of the loop reads one skip or pair, writes its pixels inside the row, and keeps the length counter from wrapping; it runs off the buffer exactly if the next operation is a pair that does not fit |
| Cpia1.CompressedLine | libvideo/libv4lconvert/cpia.c:154-194 | succeeds exactly on lines that have a reading of the full width, moves the cursors by the width and half the width, and overlays the coded pixels on the row |
| Cpia1.RawLine | libvideo/libv4lconvert/cpia.c:95-133 | succeeds exactly on full lines and stores every pixel |
| Cpia1.FrameLine | libvideo/libv4lconvert/cpia.c:87-194 | one line of either kind, from its length field to its terminator, advances the frame's reading and overlay by one line; it is read outside the buffer exactly if its length is zero or its walk arrives at a pair that does not fit |
| Cpia1.OverlayLine | libvideo/libv4lconvert/cpia.c:136-194 | a written row extends the overlay of the frame and leaves the rows before it alone |
| Cpia1.RawOverlay | libvideo/libv4lconvert/cpia.c:85-134 | an uncompressed frame does not depend on what was there before |
| Cpia1.ParseUnique | libvideo/libv4lconvert/cpia.c:85-201 | a buffer has at most one reading as a frame |
| Cpia1.Decoder.Frame | libvideo/libv4lconvert/cpia.c:85-201 | the call succeeds exactly on buffers that are a frame, and the output is the overlay of its coded pixels on the previous frame; nothing behind the frame is written |
| Cpia1.Decoder.Commit | libvideo/libv4lconvert/cpia.c:203-205 | the kept frame becomes the output |
| Cpia1.Decoder.ToYuv420 | libvideo/libv4lconvert/cpia.c:39-207 | a successful call commits the overlay; a failing one leaves a committed frame as it was |
| Cpia1.FrameAccepted | libvideo/libv4lconvert/cpia.c:62-201 | a header, lines and a tail are a frame exactly if the header has the marks and the size asked for, and the tail ends in four end marks |
| Cpia1.RawLumaIs | libvideo/libv4lconvert/cpia.c:85-134 | every luma byte of an accepted uncompressed frame, by its place in the source |
| Cpia1.RawChromaIs | libvideo/libv4lconvert/cpia.c:50-134 | every chroma byte of one: U first, V a quarter of the size further on, exchanged on request |
| Cpia1.OpMeaning | libvideo/libv4lconvert/cpia.c:154-194 | in a compressed line an odd byte leaves out half as many pixels as it says, an even one begins a pair of two or four bytes |
| Cpia1.RunIsHistory | libvideo/libv4lconvert/cpia.c:85-207 | over any run of calls each byte of the kept frame is what the last accepted frame that coded it gave it |
| Bayer.GreenSite | libvideo/libv4lconvert/bayer.c:46-294 | at a green site the mean formula is the raw sample and the two-neighbour means |
| Bayer.ColourSite | libvideo/libv4lconvert/bayer.c:46-294 | at a red or blue site it is the raw sample, the mean of the direct neighbours and the mean of the diagonal ones |
| Bayer.BorderLine | libvideo/libv4lconvert/bayer.c:46-159 | the first and last lines hold for every pixel the rounded mean of each colour's samples in the neighbourhood inside the image; every cast to a byte is lossless and exactly 3 * width bytes are written |
| Bayer.InteriorLine | libvideo/libv4lconvert/bayer.c:169-290 | the same formula for the lines between, their first and last pixels included |
| Bayer.ToRgbBgr24 | libvideo/libv4lconvert/bayer.c:163-294 | every channel of every pixel is the two-dimensional formula: the raw sample, or the rounded mean of the channel's samples in the 3x3 window inside the image; for every even width from 4, height from 2 and all flags; nothing behind the image is written |
| Bayer.ToRgb24 | libvideo/libv4lconvert/bayer.c:296-302 | for each of the four patterns the red, green and blue bytes of every pixel are, in this order, the raw sample of that colour or the rounded mean of the colour's samples around it |
| Bayer.ToBgr24 | libvideo/libv4lconvert/bayer.c:304-310 | the same in the order blue, green, red |
| Bayer.ChannelsAreColours | libvideo/libv4lconvert/bayer.c:296-310 | with those flags each channel gathers the sites the pattern gives to its colour |
| Bayer.SampledIs | libvideo/libv4lconvert/bayer.c:296-310 | the letters of a format name the colours of its top left four samples |
| Bayer.InteriorPixel | libvideo/libv4lconvert/bayer.c:163-294 | inside the image a pixel is its own sample and the means of the two or four nearest of the other colours |
| Bayer.MeanIsNearest | libvideo/libv4lconvert/bayer.c:46-294 | a mean is the nearest whole number, halves rounded up |
| Bayer.SceneReproduced | libvideo/libv4lconvert/bayer.c:296-310 | a scene of one colour, sampled through the filters of any of the four formats, comes out as that colour in either channel order |
| Bayer.FlatScene | libvideo/libv4lconvert/bayer.c:46-294 | a colour that is constant over the neighbourhood is reproduced exactly at every site |
| BayerChroma.ChromaRange | libvideo/libv4lconvert/bayer.c:409-464 | both chroma values stay within 16..240, as section 2.5 of ITU-R BT.601-7 asks, so the casts are lossless |
| BayerChroma.ChromaIsBt601 | libvideo/libv4lconvert/bayer.c:398-464 | both values are those of ITU-R BT.601 up to three units |
| BayerChroma.GreyIsNeutral | libvideo/libv4lconvert/bayer.c:415-416 | equal samples give 128 for both |
| BayerChroma.Cell | libvideo/libv4lconvert/bayer.c:408-464 | in every pattern the two values are those of the cell's red, blue and summed green samples |
| BayerChroma.ChromaPlanes | libvideo/libv4lconvert/bayer.c:398-464 | both planes, in either order, hold the values of every 2x2 cell |
| BayerChroma.CellOfOneColour | libvideo/libv4lconvert/bayer.c:398-464 | a cell whose four samples are those of one colour has the chroma of that colour in both planes |
| Pixfmt.LumaLane | src/pixfmt-conv.h:143-169 | a masked luma lane holds one byte, so packing it does not saturate |
| Pixfmt.ChromaLane | src/pixfmt-conv.h:171-193 | a masked and shifted chroma lane holds one byte, below the bound of the signed pack |
| Pixfmt.PackedLane | src/pixfmt-conv.h:171-193 | nor does the second pack saturate |
| Pixfmt.PackChromaIs | src/pixfmt-conv.h:171-193 | byte i of a packed chroma register is the chroma byte of pair i |
| Pixfmt.ShuffleChromaIs | src/pixfmt-conv.h:110-130 | byte i of the four shuffles or-ed together is the chroma byte of pair i |
| Pixfmt.YuyvToPlanar | src/pixfmt-conv.h:44-59 | luma, U and V bytes go to their planes, nothing behind the planes is written |
| Pixfmt.UyvyToPlanar | src/pixfmt-conv.h:203-218 | the same planes from the other byte order |
| Pixfmt.YvyuToPlanar | src/pixfmt-conv.h:220-235 | the same planes with U and V exchanged in the source |
| Pixfmt.YuyvToPlanarSse2 | src/pixfmt-conv.h:143-200 | the mask, shift and pack sequence establishes the planes of the scalar loop |
| Pixfmt.YuyvToPlanarSsse3 | src/pixfmt-conv.h:78-138 | so does the shuffle sequence |
| Pixfmt.PlanarUnique | src/pixfmt-conv.h:44-200 | those planes are fixed by the source, so all three routines write the same bytes |
| Pixfmt.PixelsPlanar | src/pixfmt-conv.h:44-200 | where each pixel's luma byte and each pair's U and V bytes come from, for the three packed orders |
| Hm12.LumaInjective | libvideo/libv4lconvert/hm12.c:47-60 | no two luma samples share an address |
| Hm12.ChromaInjective | libvideo/libv4lconvert/hm12.c:96-114 | no two chroma samples share an address |
| Hm12.RegionsDisjoint | libvideo/libv4lconvert/hm12.c:28-43 | all luma samples lie before the chroma region exactly if the height is a multiple of 16 |
| Hm12.RegionsOverlap | libvideo/libv4lconvert/hm12.c:28-43 | with full lines and an even height some luma and some chroma sample are the same byte exactly if the height is no multiple of 16 and not 2, 4, 8 or 20 |
| Hm12.ChromaCursor | libvideo/libv4lconvert/hm12.c:58-82 | the running chroma cursor of the RGB decoder points at the cell of the pixel |
| Hm12.ToRgb | libvideo/libv4lconvert/hm12.c:41-86 | every pixel is stored exactly once, partial tiles included, as the colour of its luma sample and its cell's two chroma samples; nothing else is written; odd heights too |
| Hm12.DeMacroY | libvideo/libv4lconvert/hm12.c:116-129 | every byte of the luma plane is stored exactly once, partial tiles included, and is its sample |
| Hm12.StorePixel | libvideo/libv4lconvert/hm12.c:75-77 | a store is only made to a pixel not stored before, which the record of stored cells then holds |
| Hm12.StoreByte | libvideo/libv4lconvert/hm12.c:107-108 | the same for a byte of a plane |
| Hm12.DeMacroUv | libvideo/libv4lconvert/hm12.c:96-114 | every byte of both chroma planes is stored exactly once, and is its sample |
| Hm12.ToYuv420 | libvideo/libv4lconvert/hm12.c:131-139 | the three planes of a frame of any size, in either chroma order, each byte stored exactly once; the chroma planes start a quarter of the frame apart and hold half the width and height, rounded down |
| Hm12.LumaReadBack | libvideo/libv4lconvert/hm12.c:28-129 | a picture stored tile by tile, in the order of the bytes, comes out line by line |
| Hm12.ChromaReadBack | libvideo/libv4lconvert/hm12.c:28-139 | so do the two chroma pictures that alternate in their tiles, U first unless exchanged |
| Hm12.DecodersAgree | libvideo/libv4lconvert/hm12.c:41-139 | every RGB pixel that has chroma in the planar frame is the colour of the three samples the planar decoder stores for it |
| Crop.CropPlane | libvideo/libv4lconvert/crop.c:45-56 | a plane shows the source shifted by the start column and line |
| Crop.BorderPlane | libvideo/libv4lconvert/crop.c:129-154 | a plane shows the source between equal pieces of border |
| Crop.ReducePlane | libvideo/libv4lconvert/crop.c:27-43 | reads only inside the source and picks exactly every second pixel of every second line |
| Crop.AddBorderRgb24 | libvideo/libv4lconvert/crop.c:129-154 | the source in the middle of a black border |
| Crop.CropRgb24 | libvideo/libv4lconvert/crop.c:45-56 | the middle of the source |
| Crop.ReduceAndCropRgb24 | libvideo/libv4lconvert/crop.c:27-43 | the middle of the source at half resolution |
| Crop.AddBorderYuv420 | libvideo/libv4lconvert/crop.c:156-229 | all three planes in a border of 16 and 128, in planes as short as the border makes them |
| Crop.CropYuv420 | libvideo/libv4lconvert/crop.c:99-126 | all three planes from even start columns and lines |
| Crop.PlaneStarts | libvideo/libv4lconvert/crop.c:99-126 | the start offsets of the three planes are the start column and line of each |
| Crop.ReduceAndCropYuv420 | libvideo/libv4lconvert/crop.c:58-97 | all three planes at half resolution, packed |
| Crop.CropUndoesBorderRgb24 | libvideo/libv4lconvert/crop.c:45-154 | cropping after bordering returns every RGB24 source |
| Crop.CropUndoesBorderYuv420 | libvideo/libv4lconvert/crop.c:99-229 | it returns the luma plane always, the chroma planes if the heights differ by a multiple of four |
| Crop.ChromaLost | libvideo/libv4lconvert/crop.c:99-229 | for every other pair of sizes some source does not come back |
| Crop.CropFrame | libvideo/libv4lconvert/crop.c:231-257 | the dispatcher borders, reduces or crops by the sizes, with the result of the chosen transform |
| Crop.RgbBorderCentred | libvideo/libv4lconvert/crop.c:129-154 | the source lies between equal black margins, but for one odd column or line |
| Crop.RgbReductionCentred | libvideo/libv4lconvert/crop.c:27-43 | every second pixel of every second line, the margins left over on both sides differing by one at most |
| Crop.RgbCropCentred | libvideo/libv4lconvert/crop.c:45-56 | all pixels of the middle, the margins differing by one at most |
| Crop.YuvBorderCentred | libvideo/libv4lconvert/crop.c:156-229 | the three planes between margins of 16 and 128, even and equal but for two columns or lines |
| Crop.YuvReductionCentred | libvideo/libv4lconvert/crop.c:58-97 | every second sample of every second line of each plane from one even place, the margins differing by two at most |
| Crop.YuvCropCentred | libvideo/libv4lconvert/crop.c:99-126 | all samples of the middle of each plane from one even place, the margins differing by two at most |
| Crop.CropReturns | libvideo/libv4lconvert/crop.c:231-257 | the dispatcher there and back returns every RGB24 source exactly if the larger size is not at least twice the smaller in both dimensions, or equal, or the source is empty, or it is one pixel and the larger sizes are even |
| Flip.VFlipPlane | libvideo/libv4lconvert/flip.c:27-34 | lines in reverse, whatever the padding |
| Flip.HFlipPlane | libvideo/libv4lconvert/flip.c:62-74 | pixels of each line in reverse, the bytes of a pixel in order |
| Flip.HalfTurnPlane | libvideo/libv4lconvert/flip.c:103-113 | the linear walk backwards is the picture turned half round |
| Flip.QuarterTurnPlane | libvideo/libv4lconvert/flip.c:132-143 | the computed offsets turn the picture a quarter round |
| Flip.TurnYuv420 | libvideo/libv4lconvert/flip.c:36-170 | all three planes turned, at the places of the target's format |
| Flip.FlipFrame | libvideo/libv4lconvert/flip.c:190-230 | the dispatcher turns by the two flags, and the format afterwards has no padding; the half turn for both flags is that of the frame read as packed, and of the frame exactly if these two look the same |
| Flip.Rotate90Frame | libvideo/libv4lconvert/flip.c:172-188 | width and height are exchanged and the frame read as packed is turned; the result is the quarter turn of the frame exactly if these two look the same |
| Flip.FlipsMirror | libvideo/libv4lconvert/flip.c:27-101 | byte by byte: the horizontal flip keeps the lines and mirrors the columns, the vertical one keeps the columns and mirrors the lines |
| Flip.TurnAndFlipTranspose | libvideo/libv4lconvert/flip.c:132-170 | a quarter turn and a horizontal flip exchange columns and lines, byte by byte, so the turn is to the right |
| Flip.Involution | libvideo/libv4lconvert/flip.c:27-130 | both flips and the half turn are their own inverses |
| Flip.TwiceIsNothing | libvideo/libv4lconvert/flip.c:27-130 | so they are on frames of one or three planes; the frame flipped first may be padded |
| Flip.BothFlips | libvideo/libv4lconvert/flip.c:27-130 | one flip after the other, in either order, is the half turn |
| Flip.QuarterTwice | libvideo/libv4lconvert/flip.c:103-170 | two quarter turns are a half turn |
| Flip.QuarterFourTimes | libvideo/libv4lconvert/flip.c:132-170 | four quarter turns give the frame back |
| Flip.PaddingIgnored | libvideo/libv4lconvert/flip.c:27-101 | flipping a padded frame and flipping its packed copy give the same frame |
| Flip.TurnNeedsPacking | libvideo/libv4lconvert/flip.c:103-170 | for both formats: the half turn and the quarter turn are right for every source exactly if the lines are not padded, or there is at most one line, or the lines are empty |
| Flip.TurnRightIs | libvideo/libv4lconvert/flip.c:103-188 | of the frame written: it is the turn of the padded frame exactly if the source looks the same read as packed |
| Flip.CursorSteps | libvideo/libv4lconvert/flip.c:36-170 | the steps of the source cursor between the planes lead to where the next plane's walk begins |
| Flip.SameBytes | libvideo/libv4lconvert/libv4lconvert.c:411-424 | unpadded frames that show the same planes are the same bytes |
| Mjpeg.TablesWellFormed | src/jpeg.c:29-65 | the inserted bytes are one segment of four tables in the form of section B.2.4.2 of ITU-T T.81, each a code that leaves room as section K.3 has it |
| Mjpeg.TableSize | src/jpeg.c:29-31 | its length field covers it, and it is 420 bytes long |
| Mjpeg.DcByLength | src/jpeg.c:31-36 | the DC symbols are the sizes from 0 to 11 in order |
| Mjpeg.LumaByLength | src/jpeg.c:36-51 | the AC symbols for luma with codes of each length up to fifteen bits |
| Mjpeg.LumaComplete | src/jpeg.c:36-51 | every pair of run and size has a code, as have the end of block and a run of sixteen zeros, and those of sixteen bits ascend |
| Mjpeg.ChromaByLength | src/jpeg.c:51-65 | the AC symbols for chroma with codes of each length up to fifteen bits |
| Mjpeg.ChromaComplete | src/jpeg.c:51-65 | the same completeness for chroma |
| Mjpeg.SegmentScanned | src/jpeg.c:92-107 | the scan passes from a segment to the one behind it; the length field, high byte first, counts itself and the payload |
| Mjpeg.CopySegments | src/jpeg.c:92-107 | the loop stops where the scan over the segments does and has copied everything before |
| Mjpeg.EncodeMjpeg | src/jpeg.c:79-120 | the output is the rewritten frame, and a size of zero means refused |
| Mjpeg.TablesSplicedIn | src/jpeg.c:92-112 | a well-formed frame without tables comes out with them exactly before the start of scan |
| Mjpeg.TablesKept | src/jpeg.c:92-116 | one with tables comes out unchanged |
| Mjpeg.ScanAfterInsertion | src/jpeg.c:92-116 | in the rewritten frame the scan finds the inserted tables |
| Mjpeg.Idempotent | src/jpeg.c:79-120 | rewriting twice is rewriting once |
| Mjpeg.StartCheck | src/jpeg.c:83-86 | the check of the first two bytes agrees with a check for a start of image exactly when they are both right or both wrong |
| JpegMemory.MemorySource.FillInputBuffer | libvideo/libv4lconvert/jpeg_memsrcdest.c:66-80 | a refill continues the stream of markers |
| JpegMemory.MemorySource.SkipInputData | libvideo/libv4lconvert/jpeg_memsrcdest.c:93-109 | ends, and drops exactly the bytes asked for across any number of refills |
| JpegMemory.Serve | libvideo/libv4lconvert/jpeg_memsrcdest.c:66-109 | any mix of reads, refills and skips is answered by the buffer followed by FF D9 forever |
| JpegMemory.AnswersCompose | libvideo/libv4lconvert/jpeg_memsrcdest.c:66-109 | what follows any requests is the stream with as many bytes dropped as they read and skipped |
| JpegMemory.EndOfImageAhead | libvideo/libv4lconvert/jpeg_memsrcdest.c:73-77 | behind the buffer an end of image is at most one byte away |
| JpegMemory.MemoryDestination.EmptyOutputBuffer | libvideo/libv4lconvert/jpeg_memsrcdest.c:226-238 | growing keeps every byte emitted |
| JpegMemory.MemoryDestination.TermDestination | libvideo/libv4lconvert/jpeg_memsrcdest.c:249-253 | the reported size is the number of bytes emitted |
| JpegMemory.EmitAll | libvideo/libv4lconvert/jpeg_memsrcdest.c:226-284 | all emitted bytes are kept in order across any number of growths, and counted |
| Controls.HasId | libvideo/v4l2-input.c:745-750 | the list search decides membership |
| Controls.CountControls | libvideo/v4l2-input.c:752-812 | the first pass counts the usable standard, private and newly found extended controls |
| Controls.CreateControls | libvideo/v4l2-input.c:974-1061 | the second pass fills exactly as many slots as were counted, with those controls in order and repaired, and touches no slot behind the next one |
| Controls.NothingMissed | libvideo/v4l2-input.c:981-1010 | a walk that stops because the slots are used up has missed no control |
| Controls.GetControlList | libvideo/libvideo.c:452-515 | the array holds the counted controls and room for the driver probes' own; no index is past its end |
| Controls.OnlyOffered | libvideo/v4l2-input.c:752-812 | each control listed is an answer of the driver's, in use and no class |
| Controls.AllPlainListed | libvideo/v4l2-input.c:759-788 | each such answer to a request for a standard or private id is listed |
| Controls.AllExtendedListed | libvideo/v4l2-input.c:790-807 | of each such answer the extended walk gets there is a control with its id |
| Controls.IdsDistinct | libvideo/v4l2-input.c:752-812 | with a driver whose extended answers move on, no id is listed twice |
| Controls.WalkEndsUnlessStuck | libvideo/v4l2-input.c:791-807 | with a driver that falls back by at most one id the walk ends exactly if it never gets, from its start, to a request for the id behind c that is answered with c - 1 |
| Controls.StuckAhead | libvideo/v4l2-input.c:791-807 | for any driver: a walk that gets to such a request does not end |
| Controls.StuckDriver | libvideo/v4l2-input.c:791-807 | a driver that answers with its only extended control also the request for the one behind it falls back by one, and the walk does not end |
| Controls.NeverStuck | libvideo/v4l2-input.c:791-807 | drivers that never go back are among those, and never get the walk stuck |
| Controls.WalkTerminates | libvideo/v4l2-input.c:791-807 | the walk ends for every driver that never answers with an id behind the one asked for, also if it repeats that id |
| Controls.EnumerationsFinite | libvideo/v4l2-input.c:759-807 | so both passes end for a driver that also echoes plain ids and has a last private control |
| Controls.FixQuirkyStruct | libvideo/v4l2-input.c:913-970 | repairs one slot in place and no other |
| Controls.NormalForm | libvideo/v4l2-input.c:913-970 | repair reaches the normal form, is idempotent, changes exactly the controls that lack it, and keeps id, type, name and the two bounds of an integer |
| Controls.ClampedAccepted | libvideo/v4l2-input.c:1062-1081 | a clamped value passes the range check exactly when the control is no menu with an empty range; values in range are left alone |
| Controls.ClampedToNearest | libvideo/v4l2-input.c:1062-1081 | a value out of range becomes the nearer end of the range |
| Controls.FakeMenu | libvideo/v4l2-input.c:893-906 | the size formula is the number of entries the loop fills: every step of the range once, in order |
| Fraction.DepthBound | libvideo/fps-param-probe.c:49-63 | the tolerance more than doubles per call, so the depth is at most logarithmic in its inverse |
| Fraction.OneLevel | libvideo/fps-param-probe.c:49-63 | the recursion is one level deep exactly if the inverse of the remainder leaves one within the grown tolerance |
| Fraction.CutExact | libvideo/fps-param-probe.c:49-68 | the result is a convergent: together with its predecessor and the remainder it gives the number exactly |
| Fraction.LowestTerms | libvideo/fps-param-probe.c:49-68 | numerator and denominator are coprime and the denominator is positive |
| Fraction.ErrorBound | libvideo/fps-param-probe.c:49-68 | the error to the number with its fractional part taken without sign is smaller than one over the square of the denominator |
| Fraction.ApproximatesArgument | libvideo/fps-param-probe.c:49-68 | the result approximates its argument, with an error below one over the square of the denominator, exactly if the argument is not negative or its remainder is within the tolerance |
| Fraction.NegativeHalf | libvideo/fps-param-probe.c:49-68 | minus a half is returned as one over two |
| Fraction.Integers | libvideo/fps-param-probe.c:49-68 | an integer is its own approximation |

## Left out

- Device access, ioctls, pipes, sockets and files: their behaviour is the kernel's. The control driver is a function from the requested id to its reply; a plain request is assumed to be answered with its own id, and the enumerations to be finite, for which `Controls.EnumerationsFinite` gives a condition on the driver.
- The JNI files, the x264 binding and the Java classes: wrappers over libraries that are not part of this model.
- libjpeg and tinyjpeg decoding (`jpeg.c` of the conversion library, `jl2005bcd.c`, `jidctflt.c`): floating-point and external code.
- JPGL frames above the block: the conversion tables are unsigned and the clamp does not see negative sums.
- The interior luma of the Bayer to YUV 4:2:0 conversion: its sums are narrowed to a byte.
- JpglBlock.IdctColumns: integers are unbounded, so an overflow of the transform on extreme coefficients is not modelled; a DC within -512..511 is at most 2^24 in magnitude after its premultiplication.
- JpglReader.BitReader.Init: the queue is assumed to be padded, since a peek may look past the last code; so is the input of the MR97310A reader.
- Mr97310a.Decoder.Decode: bit positions are unbounded; the ioctl that slows the camera down on the third incomplete frame is not modelled.
- Mr97310a.Decoder.Predict: the code also reads the top left pixel where it does not use it, at the start of the third row from before the image; the model reads it only where it is used.
- Cpia1.Decoder.ToYuv420: buffers are shorter than 2^32 bytes; a failing allocation is not modelled; calls that would read past the buffer end with `OverRead` and are not distinguished from failures beyond that.
- Bayer.ToRgbBgr24: odd widths and widths below 4, where the code reads outside a line.
- Pixfmt.YuyvToPlanarSse2: the prefetch, and the wrap-around of the pixel count times three for images beyond 2^32 / 3 pixels.
- Hm12.ToRgb: the colour conversion is a parameter; both wrappers of the C code pass the same flag, so no claim is made about BGR order.
- Crop.CropFrame: a frame that grows in one dimension and shrinks in the other, where the unsigned offsets wrap; `v4lconvert_try_format` only picks sizes that do not (libvideo/libv4lconvert/libv4lconvert.c:449-519).
- Crop.AddBorderYuv420: odd sizes and line lengths, for which the planes do not lie where the next stage looks for them; target sizes are rounded to even ones (libvideo/libv4lconvert/libv4lconvert.c:513-519).
- Crop.CropYuv420: odd sizes and line lengths, for the same reason.
- Crop.ReduceAndCropYuv420: odd sizes and line lengths, for the same reason.
- Crop.AddBorderRgb24: with an odd difference of widths the border lines are one pixel wider than the lines between, and that last column is not described.
- Flip.TurnYuv420: odd sizes and line lengths, for the same reason.
- Mjpeg.EncodeMjpeg: reads behind the captured bytes end the call with `PastEnd` instead of returning what lies there.
- JpegMemory.EmitAll: running out of memory, which ends the process.
- Controls.CreateControls: the menus queried from the driver, and the debug message that looks at the slot before the first one when the first answer is a disabled control.
- Controls.GetControlList: the version 1 driver, and the probes' own lists, which are all written behind the counted controls.
- Controls.FakeMenu: 32-bit overflow of the range, and negative steps.
- Fraction.ToFraction: real numbers instead of doubles.
- Palette tables, logging, capability listings and the example HTTP server.
