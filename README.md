# A5.c frame player — Dafny model

A5.c is a small video player. It opens a media file with FFmpeg and picks the
first video stream that has a decoder. It then decodes up to `NUM_FRAMES`
(100) packets of that stream. Each decoded frame is converted to packed
RGB24 by `save_rgb_frame` and stored in the global array
`rgb_frame_array` at index `frame_number - 1`. Once the decode phase is
over, a GTK timer fires at a fixed period. Each tick
advances the playback cursor `animate_position` and queues a redraw. The
draw handler `on_draw_event` copies the frame under the cursor, pixel by
pixel, into a Cairo RGB24 surface. An unused helper, `save_gray_frame`, writes
one plane as a binary PGM file.

The model follows the code's own form:

- `media.dfy` (module `Media`) holds the constants, the frame values and
  `allocateFrame`.
- `store.dfy` (module `Store`) is `rgb_frame_array`: a class over an `array`
  of optional frames. It keeps a ghost write log, and its invariant says the
  array is that log replayed on the empty array. `SaveRgbFrame` writes one
  slot in place.
- `decode.dfy` (module `Decode`) is `decode_packet`. It is a `while` loop
  against a scripted decoder, proved equal to the reference definition
  `Drain`. The codec context is a class whose `frameNumber` counts the
  frames the decoder has returned; each saved frame goes under that number.
- `player.dfy` (module `Player`) is `main` up to the GTK event loop: the
  start-up checks, the stream loop, and the packet loop with its
  decrementing budget. The packet loop is proved against the reference
  definition `Fill`.
- `cursor.dfy` (module `Cursor`) is `animate_position` as a class, with
  `update_position` and `refresh_screen` as methods.
- `render.dfy` (module `Render`) is the nested pixel loop of
  `on_draw_event`, writing into an `array<bv32>` surface.
- `pgm.dfy` (module `Pgm`) is the byte layout `save_gray_frame` writes: the
  header, then a row loop. Its bytes are the integers 0..255.
- `arith.dfy` (module `Arith`) holds one monotonicity fact about products
  that the row arithmetic needs.

The source is followed where it departs from a careful design:

- The cursor wraps when it reaches `NUM_FRAMES - 2`, whatever number of
  frames was decoded. The model keeps that rule; it does not wrap against
  the count of filled slots.
  - `Cursor.PositionIsTickCountModulo` proves the resulting period.
  - `Cursor.DisplayReadyIff` states exactly which slots must be filled for
    playback never to meet an empty slot.
- The slot index `frame_number - 1` is never checked. It is a precondition
  of `SaveRgbFrame`, and it becomes the `WritesInRange` obligation of
  `DecodePacket` and `FillPhase`.
  - Frames are numbered 1, 2, 3, … across the whole fill phase
    (`Player.FillConsecutive`), so the obligation holds exactly when the
    fill phase saves at most `NUM_FRAMES` frames (`Player.PlaybackReady`).
    That is the precondition of `Launch`.
  - The packet budget bounds the packets decoded, not the frames saved.
  - `Decode.DrainSavesEveryFrame` shows that one packet may yield any number
    of frames.
  - Playback never meets an empty slot exactly when the fill phase saved at
    least `NUM_FRAMES - 1` frames (`Player.PlaybackReady`, `Player.Launch`).
- The blit clamps neither `line_size / 3` to the surface row nor
  `WIN_HEIGHT` to the picture height. `Blit` requires its buffer to hold
  `WIN_HEIGHT` rows and its rows to fit the surface. A stored picture is the
  `3 · width · height`-byte buffer `av_image_alloc` makes (the `StoredFrame`
  type), so `DrawFrame` requires, in frame terms, a frame at least
  `WIN_HEIGHT` rows high and at most `WIN_WIDTH` pixels wide;
  `Render.PictureFits` proves these are exactly the blit's conditions.
- A failed `av_image_alloc` is only logged, so the stored frame has no
  picture. A failed `av_frame_alloc` exits with status 1, which the model
  carries up as `Exited(1)` / `Terminated(1)`.

## Model

| member | source | states |
|---|---|---|
| Media.AllocateFrame | A5.c:430-450 | none exactly when the frame struct is not allocated (the process exits); otherwise an RGB24 frame of the requested size, with a picture exactly when the image allocation succeeds, which needs a positive size; the picture has line size 3·width and 3·width·height bytes |
| Media.Scaled | A5.c:413 | the converter writes into the picture buffer in place: the buffer keeps its size, holds the converter's bytes from the start, and keeps its initial content past them |
| Media.ConvertFrame | A5.c:410-413 | the converted frame has the source's width and height and format RGB24; it has a picture exactly when the image allocation succeeds at a positive size, and then the picture is the 3·width·height-byte buffer, line size 3·width, holding the converter's bytes |
| Store.EmptySlots | A5.c:50 | the static array has NUM_FRAMES slots |
| Store.Apply | A5.c:417-418 | replaying writes keeps the number of slots |
| Store.SaveWrite | A5.c:404-421 | a save writes slot fnumber − 1 with an RGB24 frame of the source's size, and writes nothing exactly when the frame struct cannot be allocated |
| Store.FrameStore.constructor | A5.c:50 | the store starts with every slot empty and an empty write log |
| Store.FrameStore.SaveRgbFrame | A5.c:404-421 | given 1 ≤ fnumber ≤ NUM_FRAMES, slot fnumber − 1 holds the new frame and every other slot is unchanged; on allocation failure, status Exited(1) and the store is unchanged |
| Store.ApplyAppend | A5.c:417-418 | one more write changes exactly its own slot of the replayed array |
| Store.ApplySlot | A5.c:417-418 | a slot no write names keeps its content; a slot some write names holds a frame |
| Store.ConsecutiveInRange | A5.c:417-418 | writes to slots 0, 1, 2, … are all in range exactly when there are at most NUM_FRAMES of them |
| Store.ConsecutiveSlots | A5.c:417-418 | after writes to slots 0, 1, 2, … on the empty array, slot i is filled exactly when i is below the number of writes |
| Decode.CodecContext.constructor | A5.c:221-237 | an opened codec context has returned no frame: its frame number is 0 |
| Decode.CodecContext.Receive | A5.c:341 | a receive call yields the next scripted result and raises the frame number by one exactly when it returns a frame |
| Decode.DecodePacket | A5.c:332-370 | the loop returns the send error unchanged, otherwise the drain's result; its store writes are exactly those of the reference drain, in order, and the frame number has grown by the frames saved |
| Decode.DrainSavesReceivedInOrder | A5.c:340-367 | the k-th frame saved is the k-th receive result, a received frame whose allocation succeeded, saved under frame number count + k + 1, so in slot count + k |
| Decode.Run | A5.c:340-367 | the leading run of receive results that are frames the save can allocate: all of them before it, and a failure or an unallocatable frame right after it |
| Decode.DrainRun | A5.c:340-369 | the drain saves exactly Run frames; then it returns 0 when the script ends, 0 at EAGAIN or EOF, the error code itself at any other error, and exits with status 1 at an unallocatable frame |
| Decode.DrainStatus | A5.c:340-369 | the drain returns 0 or a negative code other than EAGAIN/EOF, or exits with status 1; it saves at most one frame per receive call |
| Decode.DrainSavesEveryFrame | A5.c:340-367 | n received frames and nothing else are all saved and the call returns 0: the frames per packet are unbounded |
| Player.FirstPlayableFrom | A5.c:181-212 | −1 exactly when no stream from `from` on has a decoder and is video; otherwise the first such index |
| Player.SelectVideoStream | A5.c:180-212 | the stream loop yields −1 exactly when no stream is playable, otherwise the first stream that has a decoder and is video |
| Player.OnlyStream | A5.c:259 | the packets kept all belong to the chosen stream and are no more than the input |
| Player.FillBound | A5.c:253-273 | the packet loop decodes at most NUM_FRAMES packets and no more than the video stream delivers |
| Player.FillIgnoresOtherStreams | A5.c:257-272 | removing packets of other streams does not change what the loop does |
| Player.DecodeStatusAnyCount | A5.c:332-370 | what decode_packet returns does not depend on the codec's frame number |
| Player.FillStopsAtFailure | A5.c:261-268 | once a video packet's decode returns a negative code or exits, the packets after it change nothing |
| Player.DecodeConsecutive | A5.c:366 | the frames one decode_packet saves carry consecutive frame numbers, starting right after the codec's count |
| Player.FillConsecutive | A5.c:253-273 | over the whole packet loop the saved frames go to consecutive slots, starting at the codec's count |
| Player.PlaybackReady | A5.c:253-273 | from a fresh codec, every slot written is in range exactly when at most NUM_FRAMES frames are saved, and then every slot the cursor reaches is filled exactly when at least NUM_FRAMES − 1 frames are saved |
| Player.FillPhase | A5.c:253-273 | the loop's store writes, the packets decoded and the exit flag are those of the reference loop, frame numbers continuing from the codec's count, and at most NUM_FRAMES packets are decoded |
| Player.Launch | A5.c:142-273 | main returns −1, before any store write, exactly when a start-up check fails or no stream is playable; otherwise the fill phase runs from a fresh codec and playback starts unless the process exited; from an empty store, playback never meets an empty slot exactly when at least NUM_FRAMES − 1 frames were saved |
| Cursor.Advance | A5.c:492-501 | the cursor goes to 0 exactly at NUM_FRAMES − 2 and otherwise adds 1; from the range 0..NUM_FRAMES − 2 it is (p + 1) mod (NUM_FRAMES − 1) |
| Cursor.PositionAfter | A5.c:52 | from 0, the cursor stays in 0..NUM_FRAMES − 2 after any number of ticks, so slot NUM_FRAMES − 1 is never shown |
| Cursor.PositionIsTickCountModulo | A5.c:494-498 | after t ticks the cursor is t mod (NUM_FRAMES − 1) |
| Cursor.FirstPass | A5.c:494-498 | during the first NUM_FRAMES − 1 ticks the cursor equals the tick count |
| Cursor.DisplayReadyIff | A5.c:466 | every slot the cursor ever reaches is filled exactly when slots 0..NUM_FRAMES − 2 are filled |
| Cursor.PlaybackCursor.constructor | A5.c:52 | the cursor starts at 0 |
| Cursor.PlaybackCursor.UpdatePosition | A5.c:492-501 | one application of the wrap rule; the cursor stays where the ticks so far bring it |
| Cursor.PlaybackCursor.RefreshScreen | A5.c:509-516 | each tick advances the cursor exactly once and returns true, so the timer keeps firing |
| Render.Pack | A5.c:475-478 | the packed word is below 2^24 and its three low bytes are r, g and b |
| Render.RowPixels | A5.c:473-474 | the loop copies line_size / 3 pixels per row (none for a non-positive line size), which is 3 bytes per pixel at most line_size |
| Render.Dest | A5.c:472-480 | word x of row y lies in row y of the surface, rows being stride / 4 words apart |
| Render.Blit | A5.c:471-481 | for every y < WIN_HEIGHT and x < line_size / 3, word x of row y is the pack of the bytes at y·line_size + 3x + 0/1/2; no other word is written |
| Render.PictureFits | A5.c:471-478 | for a picture of the allocated size, the loop copies the frame's width in pixels per row, reads inside the picture exactly when the frame is at least WIN_HEIGHT rows high, and fits the surface rows exactly when the frame is at most WIN_WIDTH wide |
| Render.DrawFrame | A5.c:459-486 | the frame under the cursor, whose slot and picture must exist and which must be at least WIN_HEIGHT rows high and at most WIN_WIDTH wide, is copied pixel by pixel into the WIN_WIDTH-word rows of the surface; the rest of each row is untouched |
| Pgm.DigitsShape | A5.c:390 | %d writes only digit characters, without a leading zero |
| Pgm.DigitsRoundTrip | A5.c:390 | the digits read back as the number written |
| Pgm.DecimalRoundTrip | A5.c:390 | a signed %d field reads back as the number and contains no space or newline |
| Pgm.Header | A5.c:390 | the header is 9 bytes plus the two printed numbers |
| Pgm.MaxvalValue | A5.c:390 | the maximum grey value field "255" reads back as 255 |
| Pgm.LayoutEnds | A5.c:390 | the header format opens with "P5" and a newline and closes with "255" and a newline, whatever the two number fields hold |
| Pgm.LayoutWidth | A5.c:390 | in the header format the first number field follows the magic line and is followed by a space |
| Pgm.LayoutHeight | A5.c:390 | in the header format the second number field follows the space and is followed by a newline |
| Pgm.HeaderEnds | A5.c:390 | the header starts with "P5" and a newline and ends with a field reading 255 and a newline |
| Pgm.HeaderWidth | A5.c:390 | the header's width field ends at the space, reads back as xsize and holds no separator |
| Pgm.HeaderHeight | A5.c:390 | the header's height field ends at the next newline, reads back as ysize and holds no separator |
| Pgm.RowStartIsProduct | A5.c:394 | row i starts at i·wrap |
| Pgm.SaveGrayFrame | A5.c:381-396 | the file is the header followed by the first ysize rows of the plane, none when ysize ≤ 0 |
| Pgm.RowsLength | A5.c:393-394 | the payload is ysize·xsize bytes |
| Pgm.RowsSlice | A5.c:393-394 | bytes i·xsize .. (i+1)·xsize of the payload are the plane's row i |
| Pgm.PgmLayout | A5.c:390-394 | after the header, row i of the file is buf[i·wrap .. i·wrap + xsize), and the file is the header plus ysize·xsize bytes |

## Left out

- FFmpeg calls are not modelled: `avformat_*`, `avcodec_*`, `av_read_frame`, `av_frame_alloc` and `av_image_alloc`. Only their results are, as the `Setup`, `Stream`, `Packet` and `Conversion` values.
- The decoder is a script of receive results. Past the end of its script it answers AVERROR(EAGAIN), as a decoder that needs more input does. AVERROR(EAGAIN) is −11 (Linux) and AVERROR_EOF is −0x20464F45.
- The bytes of `save_gray_frame`'s file are integers 0..255, while the pixel bytes of the draw handler are `bv8`: the header is reasoned about as decimal digits, the pixels as bits.
- The YUV to RGB conversion (`sws_getContext`, `sws_scale`, `sws_freeContext`) is not modelled. Its output is the `pixels` field of `Conversion`, written from the start of the picture buffer; bytes past the buffer's end are dropped and bytes it does not reach stay as allocated.
- A freshly allocated picture's content is unspecified; zeros stand for it.
- GTK and Cairo plumbing is not modelled: window and widget creation, signal wiring, `gtk_main`, surface creation, flush, mark_dirty, paint and `gtk_widget_queue_draw_area`. `Launch` ends at the point where playback would start.
- The surface is an `array<bv32>`. `Blit` takes any stride that is a multiple of 4; `DrawFrame` uses the stride Cairo gives an RGB24 surface `WIN_WIDTH` pixels wide, `4 · WIN_WIDTH` bytes.
- The timer period `SPEED_OF_VIDEO` is not modelled: the model counts ticks, not milliseconds.
- The codec's `frame_number` is modelled as the number of frames `avcodec_receive_frame` has returned, which is what libavcodec documents it to be. How FFmpeg maintains it internally is not modelled.
- `logging`, the `snprintf` file names, and `fopen`/`fwrite`/`fclose` are not modelled. `save_gray_frame` yields the byte sequence it would write.
- Resource release after the packet loop (A5.c:275-279) is not modelled.
- The commented-out producer/consumer threads, semaphores and mutex are not modelled.
- `exit(1)` inside `allocateFrame` is a returned status, not process termination.
- C `int` widths are not modelled: the cursor, the budget and the frame numbers are unbounded integers. The cursor and the budget provably stay in range.
- The number of packets the fill loop has decoded is a ghost out-parameter of `FillPhase`. The code keeps only the decrementing counter.
