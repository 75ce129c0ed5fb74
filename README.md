# tcalc-badapple video codec, modelled in Dafny

tcalc-badapple plays a black-and-white video on a 128 x 64 LCD12864 graphic
display. The host tool `vidproc` turns each frame into a bit stream:

- The stream starts with a width byte and a height byte.
- The first frame comes next, with every pixel run-length encoded column by column.
- Each later frame starts with a 64-bit header, one bit per chunk of an 8 x 8 grid of chunks.
- Each later frame then holds the run-length code of the pixels of the changed chunks only.

Each run length is written as a start-step-stop code with 3-bit groups and
the OFFSETS table 0, 8, 72, 584, 4680, 37448. Whether a chunk counts as
changed is decided by an error accumulator per chunk.

Two decoders read the stream:

- The embedded `VideoDecoder` paints frames into the 32 x 16 word buffer of the LCD driver.
- The host viewer `vidunproc` paints frames into a byte image.

The `LCD12864` driver then sends the driver's buffer to the display controller. It only sends the words that changed.

The project models these as Dafny classes and methods over arrays, following the source's loops. Each one is proved against pure specification functions:

- `Bits`: bytes and bit sequences, most significant bit first.
- `StartStepStop`: the run-length code and its reader.
- `RunLength`: runs, their code, and the pixel decoder `DecodeFrame`.
- `Chunks`: the chunk grid and the skip scan `Scan`.
- `ChangeDetect`: the change detector.
- `VideoFormat`: the stream layout.
- `Playback`: `Play` and `Video`, the frames a stream shows.
- `LcdLayout`: how screen pixels map to buffer bits.

The central results:

- The encoder's output, played by `Video`, gives back the frames the encoder committed (`RoundTrip.EncodedVideoPlays`).
- The run code round-trips in both directions.
- Both decoders show exactly the frames of `Video`.
- Replaying the driver's bus writes on a model of the controller's graphics RAM yields `draw_buf`.

## Model

| member | source | states |
|---|---|---|
| Bits.ValueAt | src/decoder.cpp:22-28 | the value of w bits read most significant first (`out << 1 \| bit`) is below 2^w |
| Bits.BitsOfBytes | src/decoder.cpp:13-20 | a byte string yields 8 bits per byte |
| Bits.BitsOfBytesAt | src/decoder.cpp:14 | bit p of the stream is bit 7 - p % 8 of byte p / 8, as read_bit masks `1 << --bit_idx` |
| Bits.ByteBits | src/decoder.cpp:9 | the 8 bits at byte k read back as that byte (the width and height read with read_bits(8)) |
| Bits.BitsOfBytesAppend | vidproc/vidproc.cpp:28-34 | putting a byte adds its 8 bits, most significant first |
| Bits.PushBit | vidproc/vidproc.cpp:28-34 | shifting a bit into buf keeps buf below 2^(count+1), and the 8th bit completes a byte whose bits are the pending ones |
| Bits.ValueAtOfMsb | vidproc/vidunproc.cpp:31-37 | reading n bits where the n-bit representation of v was written gives v back |
| Bits.MsbOfValueAt | vidproc/vidunproc.cpp:31-37 | any n bits are the n-bit representation of the value read from them (the converse round trip) |
| Bits.AllOnesBit | vidproc/vidunproc.cpp:122 | every bit below n of the all-ones value is set |
| StartStepStop.GroupsFrom | vidproc/vidproc.cpp:64 | the group loop stops at the least g with m < OFFSETS[g], so OFFSETS[g-1] <= m < OFFSETS[g] |
| StartStepStop.Groups | vidproc/vidproc.cpp:61-64 | the group count of m is between 1 and 5 and brackets m in the OFFSETS table |
| StartStepStop.Capacity | vidproc/vidproc.cpp:111-113 | g groups code exactly 8^g more run lengths than g - 1 groups: the OFFSETS table is the running sum |
| StartStepStop.ReadRunFrom | src/decoder.cpp:30-45 | a successful read uses at most 5 groups, returns a length in (OFFSETS[g-1], 37448] and moves forward |
| StartStepStop.ReadRun | src/decoder.cpp:30-45 | read_repeat_count returns a length in 1..37448 and a position after the start, within the stream |
| StartStepStop.CodeParts | vidproc/vidproc.cpp:52-80 | the code of n is g-1 ones, a zero and the 3g-bit value n-1-OFFSETS[g-1], so 4g bits in all |
| StartStepStop.ReadRunOfCode | src/decoder.cpp:30-45 | reading where the code of n stands returns n and the position just after the code |
| StartStepStop.CodeOfReadRun | src/decoder.cpp:30-45 | a successful read consumed exactly the code of the length it returned (the converse round trip) |
| StartStepStop.ShortCodes | vidproc/vidproc.cpp:58-75 | run 1 codes as 0000 and run 8 as 0111 |
| StartStepStop.FirstTwoGroupCode | vidproc/vidproc.cpp:58-75 | run 9 is the first to need two groups: 10 000000 |
| RunLength.Expand | vidproc/vidproc.cpp:90-103 | expanding runs yields as many pixels as the runs sum to |
| RunLength.ExpandUnique | vidproc/vidproc.cpp:90-103 | two run lists of positive runs that expand to the same pixels are equal: the runs are determined by the pixels |
| RunLength.FlipAfterRun | vidproc/vidproc.cpp:98-101 | a run list whose first run is shorter expands differently, because the colour flips after each run |
| RunLength.Step | src/decoder.cpp:86-90 | with a run not used up, one pixel only decrements it |
| RunLength.DecodePixels | src/decoder.cpp:72-107 | decoding n pixels yields n colours |
| RunLength.DecodeFrame | src/decoder.cpp:69-107 | a decoded frame has the requested number of pixels and ends inside the stream after its start |
| RunLength.DecodeCodes | src/decoder.cpp:85-90 | decoding over the codes of a run list yields the expanded runs and ends just after the codes |
| RunLength.DecodeFrameOfRle | src/decoder.cpp:68-90 | a start bit followed by the codes of runs decodes to the runs expanded from that colour |
| Chunks.ChunkOf | vidproc/vidproc.cpp:249-252 | a pixel's chunk index `min(x/cw,7)*8 + min(y/ch,7)` is below 64 |
| Chunks.ScanFromMembers | vidproc/vidproc.cpp:245-261 | the scan from (x, y) visits exactly the pixels of changed chunks at or after (x, y) in column order |
| Chunks.ScanMembers | vidproc/vidproc.cpp:245-261 | the skip scan visits exactly the pixels in the frame whose chunk's mask bit is set |
| Chunks.ScanFromOrdered | vidproc/vidproc.cpp:245-246 | the scan visits pixels strictly in column-major order, each once |
| Chunks.EmptyMask | vidproc/vidproc.cpp:242 | a zero mask visits no pixel |
| Chunks.FullMaskIsAllOnes | vidproc/vidunproc.cpp:122 | `~0ull` is the 64-bit all-ones mask |
| Chunks.FullMaskCount | vidproc/vidproc.cpp:164-168 | the full mask visits all w * h pixels, as the first-frame loop does |
| Chunks.FullMaskVisits | vidproc/vidproc.cpp:164-168 | the full mask visits every pixel of the frame |
| Chunks.ScanBound | vidproc/vidproc.cpp:245-261 | a scan of a frame that fits the screen visits at most 8192 pixels, so no run exceeds 37448 |
| Chunks.MaskBitsAt | vidproc/vidproc.cpp:235-239 | header bit i is mask bit 63 - i (highest chunk first) |
| Chunks.SkipStep | vidproc/vidproc.cpp:248-257 | skipping an unchanged chunk's band at its top row (`y += CHUNK_HEIGHT - 1`) skips no visited pixel |
| ChangeDetect.Commit | vidproc/vidproc.cpp:217-223 | committing a mask keeps an image of the frame size |
| ChangeDetect.RegionIsChunk | vidproc/vidproc.cpp:200-207 | the detector's region of chunk (cx, cy) is exactly the pixels the scan assigns to chunk cx*8+cy |
| ChangeDetect.NextAccBounded | vidproc/vidproc.cpp:215-219 | the carried error never exceeds the threshold, and is zero exactly when the chunk fires or had no error |
| ChangeDetect.QuietChunk | vidproc/vidproc.cpp:215-219 | a chunk with no error and none carried does not fire and stays at zero |
| ChangeDetect.LargeChangeFires | vidproc/vidproc.cpp:217 | more differing pixels than cw*ch*8/100 makes the chunk fire |
| ChangeDetect.UniformGrows | vidproc/vidproc.cpp:216 | a uniform chunk with carried error grows by at least FRAME_CONST_FACTOR a frame |
| ChangeDetect.UniformEventuallyFires | vidproc/vidproc.cpp:215-217 | a uniform chunk with pending error fires within any run of frames long enough for 5 per frame to pass the threshold |
| VideoFormat.Visited | vidproc/vidproc.cpp:245-261 | the encoded pixels are one per visited pixel of the scan |
| Playback.ApplyPixels | src/decoder.cpp:72-107 | after a frame, a pixel holds the decoded colour if its chunk changed and keeps its old colour otherwise |
| Playback.ApplyFull | vidproc/vidunproc.cpp:77 | a full-mask frame overwrites every pixel, so what the picture held before does not matter |
| Playback.ApplyNothing | src/decoder.cpp:65-67 | a zero header reads nothing and changes nothing |
| Playback.Header | src/decoder.cpp:54-58 | a header is read exactly when 64 bits remain, and is the 64-bit value of those bits |
| Playback.HeaderOfMask | vidproc/vidproc.cpp:235-239 | the header the encoder writes is read back as its mask |
| Playback.FramePixels | src/decoder.cpp:63-67 | a frame's pixels are one per scanned pixel, and a zero mask reads nothing |
| Playback.Play | src/decoder.cpp:47-61 | playing ends with no more frames exactly when fewer than 64 bits remain |
| Playback.Video | src/decoder.cpp:47-52 | a video shows at least its first frame, all of the frame size |
| Playback.PlayNext | src/decoder.cpp:53-59 | a further frame exists exactly when a header can be read; it is the picture with the frame's pixels applied, and playing goes on from after it |
| LcdLayout.AddressOfPixel | src/decoder.cpp:93-100 | a screen pixel maps to a buffer row < 32, column < 16 and bit < 16, and that address maps back to the pixel |
| LcdLayout.PixelOfAddress | src/decoder.cpp:93-100 | every buffer bit is the image of exactly one screen pixel (the converse) |
| LcdLayout.PaintedShows | src/decoder.cpp:72-107 | painting the decoded pixels along the scan turns a buffer showing img into one showing img with the frame applied |
| LcdLayout.PaintedOutside | src/decoder.cpp:72-107 | painting a frame leaves every buffer bit outside the frame's window as it was |
| LcdLayout.SeenShows | src/decoder.cpp:93-106 | every buffer shows the picture read off its window |
| VidProc.BitStream.constructor | vidproc/vidproc.cpp:22 | a new stream has no bytes, no pending bits and nothing written |
| VidProc.BitStream.Write | vidproc/vidproc.cpp:28-34 | the bit is appended; the 8th pending bit puts one byte and empties buf |
| VidProc.BitStream.WriteOnes | vidproc/vidproc.cpp:68-70 | the group ones are appended |
| VidProc.BitStream.WriteValue | vidproc/vidproc.cpp:72-75 | the w low bits of v are appended, most significant first (`while (mask >>= 1)`) |
| VidProc.BitStream.WriteCode | vidproc/vidproc.cpp:64-75 | the start-step-stop code of n is appended |
| VidProc.BitStream.Finish | vidproc/vidproc.cpp:24-26 | exactly one more byte is put, and the stream's bits are all bits written plus 8 - count zero bits |
| VidProc.RunLengthEncoder.constructor | vidproc/vidproc.cpp:83 | a new encoder has no start bit written (repeat -1) and no pixels |
| VidProc.RunLengthEncoder.Flush | vidproc/vidproc.cpp:52-80 | with no run pending nothing happens; otherwise the run's code is written, the count resets to 0 and the colour flips |
| VidProc.RunLengthEncoder.Encode | vidproc/vidproc.cpp:90-103 | the pixel is added to what the encoder has taken in, keeping its invariant (start bit, codes of the closed runs, current run) |
| VidProc.RunLengthEncoder.Finish | vidproc/vidproc.cpp:85-88 | after the destructor's flush the bits written are the start bit and the codes of the maximal runs of the pixels |
| VideoEncoder.ChunkStats | vidproc/vidproc.cpp:204-214 | the chunk's error is its count of pixels differing from previous, and allsame tells whether it is uniform |
| VideoEncoder.DetectChanges | vidproc/vidproc.cpp:197-229 | the mask has bit k exactly when chunk k fires; the accumulators follow the rule; previous becomes the commit of the changed chunks |
| VideoEncoder.SnapshotIsCommit | vidproc/vidproc.cpp:221-222 | copying the region of each changed chunk gives the committed image |
| VideoEncoder.EncodeScan | vidproc/vidproc.cpp:242-262 | the bits written are the run-length code of the pixels the skip scan visits |
| VideoEncoder.EncodeFirst | vidproc/vidproc.cpp:161-169 | the first frame's bits are the run-length code of all its pixels in column order |
| VideoEncoder.EncodeFrame | vidproc/vidproc.cpp:196-262 | one loop iteration writes the 64-bit header and then the code of the changed chunks' pixels, and steps the detector |
| VideoEncoder.EncodeVideo | vidproc/vidproc.cpp:136-263 | no frames gives no output; else min(frames, limit+1) frames are coded, after the width and height bytes and before 1 to 8 zero padding bits |
| VideoEncoder.Package | vidproc/vidproc.cpp:148-151 | the output is the width and height bytes and then the written bits with 1 to 8 zero bits of padding |
| Decoder.CentreOffset | src/decoder.cpp:10 | a frame that fits is centred, the odd pixel to the right or bottom; a larger one wraps modulo 256 |
| Decoder.ChunkSize | src/decoder.cpp:11 | `(n - 1) / 8 + 1` is the least chunk size with 8 chunks covering n pixels |
| Decoder.VideoDecoder.CursorBounds | include/decoder.h:10-11 | the cursor never passes the end of the data, and is inside it exactly while byte_idx is |
| Decoder.VideoDecoder.constructor | src/decoder.cpp:9-11 | the width and height are the first two bytes, and the cursor stands after them |
| Decoder.VideoDecoder.ReadBit | src/decoder.cpp:13-20 | the bit at the cursor is returned and the cursor moves by one, wrapping to the next byte after bit 0 |
| Decoder.VideoDecoder.ReadBitsUnchecked | src/decoder.cpp:22-28 | count bits are read as a number, most significant first |
| Decoder.VideoDecoder.ReadBits | include/decoder.h:25-36 | it succeeds exactly when count bits remain and then returns their value; otherwise it stops at the end of the data |
| Decoder.VideoDecoder.ReadRepeatCount | src/decoder.cpp:30-45 | it returns ReadRun's length and ends where ReadRun does |
| Decoder.VideoDecoder.ReadFrameMasked | src/decoder.cpp:63-110 | a zero header changes nothing; otherwise the cursor ends after the frame and the buffer is painted with the decoded pixels along the scan |
| Decoder.VideoDecoder.NextColour | src/decoder.cpp:86-90 | the colour and run after a pixel are Step's |
| Decoder.VideoDecoder.PaintPixel | src/decoder.cpp:92-106 | the pixel's buffer bit is set or cleared to the colour and nothing else changes |
| Decoder.VideoDecoder.ReadFrame | src/decoder.cpp:47-61 | the first call paints a full-mask frame; later calls fail exactly when no header remains, and otherwise paint the frame the header announces |
| Decoder.VideoDecoder.ShowFirstFrame | src/decoder.cpp:47-52 | after the first read_frame the buffer shows the video's first frame, and playing goes on with the rest |
| Decoder.VideoDecoder.ShowNextFrame | src/decoder.cpp:53-60 | each later read_frame returns true exactly when a frame remains, and then the buffer shows it |
| Decoder.NextShows | src/decoder.cpp:53-59 | a buffer showing a picture, painted with the next frame, shows Play's next picture |
| HostDecoder.Padded | vidproc/vidunproc.cpp:18-25 | the stream as bit_reader sees it has the file's bits and then 1 bits |
| HostDecoder.AsByte | vidproc/vidunproc.cpp:22 | `get()` stored in a uint8_t keeps a byte and turns EOF (-1) into 0xFF |
| HostDecoder.HostBitOfByte | vidproc/vidunproc.cpp:18-25 | the bit bit_reader returns is bit 7 - p % 8 of byte p / 8, or of 0xFF past the end |
| HostDecoder.InFile.Get | vidproc/vidunproc.cpp:64-65 | get() returns the next byte and stays good, or returns EOF and fails the stream |
| HostDecoder.BitReader.constructor | vidproc/vidunproc.cpp:14-16 | the reader starts at bit 16, after the width and height bytes |
| HostDecoder.BitReader.ReadBit | vidproc/vidunproc.cpp:18-25 | each call returns the next bit of the padded stream |
| HostDecoder.BitReader.Remaining | vidproc/vidunproc.cpp:130 | the bits of the file not yet read |
| HostDecoder.ReadNum | vidproc/vidunproc.cpp:31-37 | length bits are read as a number, most significant first |
| HostDecoder.ReadCount | vidproc/vidunproc.cpp:39-53 | read_count returns ReadRun's length and ends where ReadRun does |
| HostDecoder.OnesNoRun | vidproc/vidunproc.cpp:46-48 | where only 1 bits follow, no run length can be read: the do-while never ends |
| HostDecoder.Shade | vidproc/vidunproc.cpp:116 | a pixel is 0x00 when set and 0xFF when clear |
| HostDecoder.Dim | vidproc/vidunproc.cpp:87-94 | dimming keeps a pixel's darkness, makes it neither 0x00 nor 0xFF, and leaves other values alone |
| HostDecoder.RepaintedShows | vidproc/vidunproc.cpp:87-118 | dimming and then painting along the scan shows the picture with the frame applied |
| HostDecoder.DimFrame | vidproc/vidunproc.cpp:87-94 | every pixel of the frame is dimmed |
| HostDecoder.ReadFrame | vidproc/vidunproc.cpp:81-119 | a zero mask changes nothing; otherwise the reader ends after the frame and the image is repainted with its pixels |
| HostDecoder.Unset | vidproc/vidunproc.cpp:77 | the picture the viewer starts from has the frame size |
| HostDecoder.PlayVideo | vidproc/vidunproc.cpp:122-137 | with the loop guard corrected to "a whole 64-bit header remains", the images shown are exactly the frames of Video |
| HostDecoder.ReadHeader | vidproc/vidunproc.cpp:131 | read_num(64) reads the header Playback.Header reads |
| HostDecoder.HostLoopAfterLastFrame | vidproc/vidunproc.cpp:130-131 | after the last frame the stream is still good, the header read there is nonzero, and no run length can be read after it |
| Lcd.Addr | src/lcd12864.cpp:110-111 | `0x80 \| v` is a command with the top bit set that carries v |
| Lcd.CursorCommand | src/lcd12864.cpp:40-49 | the cursor command has top bits 10; rows 0..3 add 0x80, 0x90, 0x88, 0x98 to col; other rows keep col's low 6 bits |
| Lcd.RowData | src/lcd12864.cpp:125-147 | the data bytes sent for a row are the changed words, high byte first |
| Lcd.Synced | src/lcd12864.cpp:125-147 | when display_buf already equals draw_buf nothing is sent |
| Lcd.ReplayAppend | src/lcd12864.cpp:125-147 | replaying two pieces of the bus log is replaying the whole log |
| Lcd.CellWritesReplay | src/lcd12864.cpp:110-113 | the two addresses and two data bytes set exactly one word of the controller's RAM |
| Lcd.RowReplay | src/lcd12864.cpp:127-146 | replaying a row's writes sets that row's words to draw_buf's and leaves every other row as it was |
| Lcd.SyncReplay | src/lcd12864.cpp:121-148 | replaying update_drawing's writes on a RAM holding display_buf leaves it holding draw_buf |
| Lcd.ClearShowsBlank | src/lcd12864.cpp:99-118 | replaying clear_drawing's writes leaves the controller's RAM all zero |
| Lcd.Lcd12864.constructor | include/lcd12864.h:85-93 | both buffers start zero, in the basic command set and not drawing |
| Lcd.Lcd12864.UseExtended | src/lcd12864.cpp:71-76 | the extended-set command is sent only when not already in it |
| Lcd.Lcd12864.UseBasic | src/lcd12864.cpp:77-82 | the basic-set command is sent only when in the extended set |
| Lcd.Lcd12864.StartDraw | src/lcd12864.cpp:87-93 | switch to the extended set if needed, then graphics on |
| Lcd.Lcd12864.EndDraw | src/lcd12864.cpp:94-97 | graphics off is sent and drawing stops, whatever the mode |
| Lcd.Lcd12864.SetCursor | src/lcd12864.cpp:36-66 | the cursor command is sent, bracketed by basic and extended set commands when in the extended set |
| Lcd.Lcd12864.ClearDrawing | src/lcd12864.cpp:99-118 | when drawing, every word is addressed and zeroed and both buffers become zero; otherwise nothing changes |
| Lcd.Lcd12864.UpdateDrawing | src/lcd12864.cpp:121-148 | when drawing, display_buf becomes draw_buf and the log gains exactly the changed words; draw_buf is kept |
| RoundTrip.NonzeroScan | vidproc/vidproc.cpp:242 | a nonzero mask visits at least one pixel, so a changed frame always has a start bit |
| RoundTrip.RleDecodes | src/decoder.cpp:68-90 | the decoder reads the encoder's run-length code of any pixels back as those pixels |
| RoundTrip.FrameDecodes | src/decoder.cpp:63-110 | the code of a frame's scanned pixels decodes to those pixels, for every mask |
| RoundTrip.ApplyIsCommit | vidproc/vidproc.cpp:221-222 | the decoder's picture after a frame is the encoder's committed previous frame |
| RoundTrip.CommitAll | vidproc/vidproc.cpp:176 | committing every chunk gives the current frame (previous = processed) |
| RoundTrip.PlayStep | src/decoder.cpp:53-59 | an encoded header and frame make Play show the committed frame and go on after it |
| RoundTrip.PlayFrom | vidproc/vidproc.cpp:178-263 | playing the encoder's stream from the k-th frame yields the remaining committed snapshots |
| RoundTrip.VideoStart | src/decoder.cpp:47-52 | an encoded first frame makes Video start with that frame |
| RoundTrip.EncodedVideoPlays | vidproc/vidproc.cpp:136-263 | the video decoded from the encoder's output is exactly the sequence of frames the encoder committed |

## Left out

- VidProc.RunLengthEncoder.Flush: requires repeat <= 37448, so a run needing a sixth group is not modelled. For such a run the source's group search compares against OFFSETS[6], one past the end of the six-entry table. Every frame that fits the screen has at most 8192 pixels (Chunks.ScanBound).
- StartStepStop.ReadRunFrom: returns None for six or more groups. A six-group code reads OFFSETS[5] = 37448, which is in bounds: the host's read_count decodes it as value + 37449, and the embedded read_repeat_count reads it but truncates the result to `uint16_t`. Only seven or more groups run off both tables. The encoder never writes a six-group code (Chunks.ScanBound).
- VidProc.RunLengthEncoder.Encode: requires fewer than 37448 pixels so far, which every call site meets by Chunks.ScanBound. The source has no such bound.
- Chunks.Geometry.Valid: limits the frame to 1..128 x 1..64 pixels, as process_frame scales it to the screen. Zero-sized frames and frames larger than the screen are not modelled. It also requires every chunk of the 8 x 8 grid to be non-empty (`7 * Cw() < w` and `7 * Ch() < h`), because the detector reads the top-left pixel of every chunk (vidproc/vidproc.cpp:204), which lies outside the frame for an empty one. This excludes the widths and the heights 1-7, 9-14, 17-21, 25-28, 33-35, 41-42 and 49 (for such a size 7 * ((n - 1) / 8 + 1) >= n), which process_frame can produce, for example 128 x 49 from a 2.6:1 video. VideoEncoder.EncodeVideo and RoundTrip.EncodedVideoPlays depend on this restriction.
- StartStepStop.ReadRun: a frame cut off in the middle is outside the model. The decoders' methods require the whole frame to be readable (`Decoder.VideoDecoder.PixelsReadable`, `NextReadable`, and the host ReadFrame's requires). In the source, read_bit reads past the array there.
- Decoder.VideoDecoder.ReadFrame: after the last byte, a later call's requires puts the cursor inside the data. The source's bounded read_bits reads one bit before it checks.
- VideoEncoder.EncodeVideo: frame_limit is a nat. In the source it is an `int` compared with the `size_t` counter, so a negative limit converts to a huge unsigned value and means no limit at all; the model obtains that behaviour only by passing a limit of at least the number of frames, and does not model the conversion itself. The frames are given as a sequence of thresholded images.
- HostDecoder.Unset: the cv::Mat the viewer allocates is uninitialised, and HostDecoder.PlayVideo likewise leaves its new frame's contents arbitrary. Unset (every pixel 0x00) is only the reference starting picture handed to Playback.Video; the first frame overwrites every pixel (Playback.ApplyFull), so the frames shown do not depend on it.
- HostDecoder.PlayVideo: its loop guard is "at least 64 bits remain", not `while (in_file)`. The guard as written is exhibited under Findings.
- HostDecoder.DimFrame: models the build with SHOW_UNCHANGED_REGIONS defined, as in the source. The build without it is not modelled.
- OpenCV: VideoCapture seeking and reading, process_frame's resize and threshold, cvtColor, and the viewer's resize, imshow and waitKey are not modelled.
- Statistics: the encoder's frame-error statistics and progress output are not modelled. They do not affect the stream.
- Decoder: include/decoder.h declares `read_frame(uint8_t frame[64][16], ...)` but src/decoder.cpp defines it on `uint16_t frame[32][16]`. The model follows the definition.
- Lcd: init, clear, home, the NoInterrupt guards, the delays and the pin-level write_cmd/write_data are not modelled. A write is a `Write` appended to the driver's log, and the graphics RAM is modelled by `Gdram`.
- Timing: FRAME_INTERVAL, FRAMERATE and the main loop of the embedded player (src/main.cpp) are not part of this model.

## Findings

| source | as written | input that shows it | evidently intended | confidence | as-written member | corrected member |
|---|---|---|---|---|---|---|
| vidproc/vidunproc.cpp:130-131 | `while (in_file)` keeps reading after the last frame. The stream is still good, because the byte holding the padding was read without reaching EOF. The viewer reads a 64-bit header from the 1 to 8 zero padding bits and the 1 bits that follow EOF, which is nonzero. read_count's `while (from() != 0)` then never ends. | any file the encoder writes: for example one clear 1 x 1 frame, bytes 01 01 00 (start bit and run code 0000 end at bit 21, then 3 padding bits) | stop when no whole 64-bit header remains, and show exactly the encoded frames | not executed | HostDecoder.HostLoopAfterLastFrame | HostDecoder.PlayVideo |
