# MJPEG latest-frame viewer: stream buffer, valve, extraction, rate cap, drawing, menu

This project models the core of a Nintendo 3DS homebrew viewer for IP-camera
Motion-JPEG streams (`source/main.c`). The viewer reads an unsegmented stream of
concatenated JPEG images in 4 KiB chunks into a fixed 512 KiB buffer. The valid
bytes of that buffer are the half-open span `[buf_start, buf_end)`. From the buffer
it keeps only the newest complete frame. A frame runs from a start-of-image marker
`FF D8` to an end-of-image marker `FF D9` (ITU-T T.81, Annex B, section B.1.1.3,
Table B.1). The model covers:

- **Append with compaction.** A chunk is capped at `READ_CHUNK`. If it does not fit
  after `buf_end`, the span is first moved to offset 0. If it still does not fit, it
  is cut.
- **The oversize valve** `compact_to_latest_jpeg_once`. It runs when the span exceeds
  3/4 of the buffer. It keeps only the latest complete frame and drops everything
  else, including any bytes after that frame's EOI. With no complete frame it keeps
  the last 32 KiB.
- **Extraction.** Two backward scans find the last `FF D9` and then the nearest `FF D8`
  before it. That frame is copied out and only the bytes after its EOI stay in the
  buffer. When the EOI has no SOI before it, the buffer is left untouched.
- **The decode-rate cap.** A decode is attempted only when at least 100 ms have passed
  since the previous attempt.
- **The helpers.** These are:
  - `find_bytes`;
  - RGB565 packing and the byte swap;
  - the clipping in `draw_fill_rect`;
  - the centring, rotation and clamping in `blit_center_rgb_with_rotation_u16`;
  - the menu's edit rules.

Modules (one per file):

- `Markers`, in `markers.dfy`: bytes, markers, and the pure "latest complete frame"
  rule `LatestFrame`. It is given twice: as the two backward scans (`LastMarker`),
  and declaratively (`IsLatestFrame`). The two are proved equal.
- `ByteSearch`, in `byte_search.dfy`: `find_bytes`.
- `StreamBuffers`, in `stream_buffer.dfy`:
  - the class `StreamBuffer`, with the 512 KiB `array<bv8>` and the `start`/`end`
    fields;
  - its methods `Append`, `CompactToLatest` and `ExtractLatest`;
  - the pure functions `Appended`, `Valve` and `Extract`. Each method's new contents
    are proved equal to one of them.
- `RateLimiting`, in `rate_limiter.dfy`: the class `RateLimiter`, which holds
  `last_decode_time`, and the attempt sequence of a run of frames.
- `Viewer`, in `viewer.dfy`:
  - one pass of the main loop's stream block, as the method `Cycle`. It works on a
    `StreamBuffer` and a `RateLimiter` and is proved equal to the pure `CycleSpec`;
  - the properties that hold across passes.
- `Pixels`, in `pixels.dfy`: `rgb8_to_rgb565_pixel` and the byte swap, on `bv8` and
  `bv16`.
- `Drawing`, in `drawing.dfy`: the two framebuffer writers. They work on an
  `array<bv16>` with a stride, where index `k` is row `k / stride` and column
  `k % stride`.
- `Menu`, in `menu.dfy`: the key-driven edits of the rotation, the focused field's
  cursor, and the host and port characters.

The network read, the clock and the allocator are inputs:

- `readFailed` and `got` describe the read, and `reconnectOk` is the result of the
  reconnect request;
- `now` is the value of `now_ms()`;
- `allocOk` says whether `malloc` of the frame copy succeeded.

## Model

| member | source | states |
|---|---|---|
| `ByteSearch.FindBytes` | source/main.c:27-35 | -1 for `patlen <= 0`; otherwise -1 or the smallest `i >= start` with the pattern wholly inside `[start, end)` at `i`, and -1 only when no such `i` exists |
| `Markers.LastMarker` | source/main.c:52-58 | the backward scan's result: -1 or the highest position below the limit where `FF code` starts, with no such pair above it |
| `Markers.LatestFrame` | source/main.c:52-68 | when the scans find a frame it is an SOI before an EOI, with no EOI after that EOI and no SOI between the two |
| `Markers.LatestFrameIff` | source/main.c:52-68 | the scans find exactly the span that satisfies the declarative latest-frame rule, in both directions |
| `Markers.NoLatestFrameIff` | source/main.c:60-76 | the scans find nothing exactly when no span satisfies the rule |
| `Markers.LatestFrameIsShaped` | source/main.c:69-70 | the chosen frame starts with `FF D8`, ends with `FF D9` and holds no other `FF D8` |
| `Markers.LatestWins` | source/main.c:385-406 | after any prefix (earlier complete frames included), a frame followed by bytes without an EOI is the one chosen, and exactly those bytes follow it |
| `Markers.ShapedFrameIsLatest` | source/main.c:69-72 | a frame the valve kept is, scanned again, its own latest frame |
| `Markers.AfterHasNoFrame` | source/main.c:404-406 | the bytes left after the chosen frame's EOI hold no complete frame |
| `Markers.FrameOfPrefix` | source/main.c:385-394 | a latest frame of `a + p`, when `p` brings no `FF D9` of its own, is already a latest frame of `a` |
| `Markers.NoEoiKeepsNoFrame` | source/main.c:385-394 | bytes without an `FF D9` of their own, appended to bytes without a complete frame, complete none |
| `Markers.NoFrameInSuffix` | source/main.c:76-83 | a suffix of bytes without a complete frame has none either, so the valve's 32 KiB tail holds none |
| `StreamBuffers.Appended` | source/main.c:368-377 | the new span is the old span followed by a prefix of the chunk no longer than `got` or `READ_CHUNK`; it is exactly `min(got, READ_CHUNK)` bytes unless the buffer reached its capacity |
| `StreamBuffers.Valve` | source/main.c:47-84 | the valve keeps a frame exactly when the scans find one, and never lengthens the buffer |
| `StreamBuffers.Extract` | source/main.c:385-406 | nothing is extracted exactly when the scans find no frame; allocation fails exactly when a frame exists and `malloc` fails; an extracted frame and the bytes left together are no longer than the buffer, and any extraction attempt shortens the buffer |
| `StreamBuffers.ValveKeeps` | source/main.c:47-84 | the valve reports success exactly when a complete frame exists; it then keeps exactly the frame the declarative latest-frame rule picks, itself a complete latest frame; otherwise the last `min(len, 32768)` bytes remain |
| `StreamBuffers.ExtractYieldsLatest` | source/main.c:385-406 | there is no frame exactly when the scans find none, and the buffer is then unchanged; an extracted frame is the declarative latest frame, and the rest is exactly the bytes after its EOI; afterwards no complete frame remains |
| `StreamBuffers.ValveThenExtract` | source/main.c:380-406 | a frame the valve kept is extracted whole and empties the buffer (the bytes after its EOI were already dropped); a 32 KiB tail is left untouched by extraction |
| `StreamBuffers.StreamBuffer.constructor` | source/main.c:159-161 | a 512 KiB buffer with an empty span |
| `StreamBuffers.StreamBuffer.Reset` | source/main.c:359 | `buf_start = buf_end = 0` empties the span |
| `StreamBuffers.StreamBuffer.MoveToFront` | source/main.c:373 | `memmove` to offset 0: the first `len` bytes become the source range and the rest of the array is unchanged |
| `StreamBuffers.StreamBuffer.KeepOnly` | source/main.c:69-82 | `memmove` of a range to offset 0 followed by `buf_start = 0`, `buf_end = len`: the span becomes exactly the old bytes of that range |
| `StreamBuffers.StreamBuffer.KeepSlice` | source/main.c:69-72 | a piece of the span, moved to offset 0, becomes the whole span |
| `StreamBuffers.StreamBuffer.CopyOut` | source/main.c:403 | the copied frame equals the span's bytes at those offsets |
| `StreamBuffers.StreamBuffer.CopyIn` | source/main.c:377 | `memcpy` after `buf_end` writes the chunk's prefix there and leaves the span intact |
| `StreamBuffers.StreamBuffer.AppendBytes` | source/main.c:377 | the span grows by exactly the copied bytes |
| `StreamBuffers.StreamBuffer.Append` | source/main.c:368-377 | the new span equals `Appended` of the old span, and the span moves to offset 0 exactly when the capped chunk did not fit after `buf_end` |
| `StreamBuffers.StreamBuffer.LastMarkerBefore` | source/main.c:54-59 | the array scan from `limit - 2` down to `buf_start` returns `LastMarker` of the span |
| `StreamBuffers.StreamBuffer.ScanLatest` | source/main.c:385-394 | the two scans return the latest complete frame's SOI and EOI positions, or -1 when there is no complete frame |
| `StreamBuffers.StreamBuffer.CompactToLatest` | source/main.c:47-84 | the result and the new span equal `Valve` of the old span; the span is at offset 0 unless nothing was changed; a span no longer than 32 KiB without a frame is left as it was |
| `StreamBuffers.StreamBuffer.KeepFrame` | source/main.c:69-74 | the frame is moved to offset 0 and becomes the whole span |
| `StreamBuffers.StreamBuffer.KeepTail` | source/main.c:76-83 | the last 32768 bytes are moved to offset 0 when the span is longer; otherwise nothing changes |
| `StreamBuffers.StreamBuffer.ExtractLatest` | source/main.c:385-406 | the result and the new span equal `Extract` of the old span; with no frame the array, `start` and `end` are all unchanged |
| `StreamBuffers.StreamBuffer.TakeFrame` | source/main.c:394-406 | allocation failure empties the span; otherwise the frame is copied out and the bytes after the EOI become the span at offset 0 |
| `RateLimiting.RateLimiter.constructor` | source/main.c:178 | `last_decode_time` starts at 0 |
| `RateLimiting.RateLimiter.Admit` | source/main.c:408-411 | a decode is attempted exactly when `now - last >= 100`, and only then does the timestamp become `now` |
| `RateLimiting.RateLimiter.AdmitAll` | source/main.c:408-411 | over a run of extraction times, the attempted times and the final timestamp are those of `Attempts` and `LastAttempt` |
| `RateLimiting.Attempts` | source/main.c:408-411 | the attempted times are drawn from the extraction times; the first is at least 100 ms after the starting timestamp, and each later one at least 100 ms after the one before it |
| `RateLimiting.LastAttempt` | source/main.c:410-411 | the timestamp after a run is the starting one or one of the run's times |
| `RateLimiting.AttemptsSnoc` | source/main.c:408-411 | one more extraction time is attempted exactly when it is at least 100 ms after the latest attempt so far (`LastAttempt`), and the earlier attempts are unchanged |
| `RateLimiting.LastAttemptIsLatest` | source/main.c:410-411 | the limiter's timestamp after a run is its last attempt, or the initial value when nothing was attempted |
| `RateLimiting.FirstFrameAttempted` | source/main.c:408-411 | from the initial 0, the first frame is attempted whenever the clock reads at least 100 ms |
| `Viewer.Cycle` | source/main.c:349-411 | one pass on the buffer and the limiter yields the outcome, contents and timestamp of `CycleSpec` |
| `Viewer.Received` | source/main.c:368-383 | the bytes after appending and the valve fit the buffer and are no more than the old bytes plus the capped chunk; below the threshold the old bytes are kept as the prefix |
| `Viewer.CycleSpec` | source/main.c:349-411 | a pass keeps the contents within capacity, moves the timestamp only to `now` and only on a decode attempt, leaves everything as it was when nothing was received, and never grows the buffer by more than the capped chunk |
| `Viewer.CycleLeavesNoFrame` | source/main.c:368-406 | after a pass that received bytes no complete frame remains in the buffer, and no pass creates a leftover frame |
| `Viewer.CycleFrames` | source/main.c:380-411 | a frame that a pass hands on is the latest complete frame of the received bytes; it is decoded exactly when 100 ms have passed, and only then does the timestamp become `now` |
| `Viewer.CycleLatestWins` | source/main.c:368-411 | a chunk carrying a frame and then bytes without an EOI hands on that frame, whatever the buffer held before, and leaves exactly those bytes |
| `Viewer.CycleAfterValve` | source/main.c:380-406 | when the valve fires and finds a frame, that frame is handed on and the buffer ends empty |
| `Viewer.CycleBounded` | source/main.c:368-406 | from at most 393216 bytes a pass appends the whole capped chunk, never truncating it, and ends at most at 393216 bytes |
| `Viewer.CycleSplitFrame` | source/main.c:368-411 | from a buffer left without a complete frame, a frame whose bytes straddle two chunks at any byte is not handed on by the first pass, which keeps its first piece, and is handed on whole by the second, which leaves the buffer empty |
| `Pixels.Rgb565` | source/main.c:36-38 | bits 15..11 hold `r >> 3`, bits 10..5 hold `g >> 2`, bits 4..0 hold `b >> 3` |
| `Pixels.Rgb565Fields` | source/main.c:36-38 | packing keeps the top 5, 6 and 5 bits of red, green and blue in their fields |
| `Pixels.Rgb565OfFields` | source/main.c:36-38 | every 16-bit value is the packing of its own fields |
| `Pixels.Swap16` | source/main.c:118 | the high and low bytes are exchanged |
| `Pixels.Swap16Involution` | source/main.c:118 | swapping twice restores the pixel |
| `Pixels.StoredPixel` | source/main.c:114-119 | the stored pixel is the packed colour, byte-swapped when `swap_bytes` is set |
| `Drawing.FillRow` | source/main.c:131-132 | one row's cells become the colour and nothing else changes |
| `Drawing.ClipRect` | source/main.c:125-129 | the clipped start and size cover exactly the on-screen cells of the requested rectangle |
| `Drawing.FillClipped` | source/main.c:130-133 | the clipped rectangle's cells, and only they, become the colour |
| `Drawing.DrawFillRect` | source/main.c:124-134 | a cell becomes the colour exactly when it is on the `fb_w` x `fb_h` screen and inside the requested rectangle; every other cell, padding included, is unchanged |
| `Drawing.CenteredWindow` | source/main.c:90-99 | the window's size is the rotated image's size clipped to the screen; it lies on the screen, centred with at most one pixel of slack |
| `Drawing.RawSource` | source/main.c:104-110 | for rotations 0..3 a cell inside the rotated image's extent reads a pixel inside the image; any other rotation reads (0, 0), the switch's defaults |
| `Drawing.Clamp` | source/main.c:111-112 | the clamped coordinate lies in `[0, n)` and equals the coordinate when that already did |
| `Drawing.SourceOf` | source/main.c:106-113 | the clamped source coordinates always lie inside the image |
| `Drawing.SourceIndex` | source/main.c:114-117 | all three channel bytes read lie inside the `img_w * img_h * 3` image |
| `Drawing.BlitPixel` | source/main.c:104-119 | the stored pixel, un-swapped when `swap_bytes` is set, is the RGB565 packing of the three bytes at the clamped source pixel's index, which lie inside the image |
| `Drawing.RotationStaysInImage` | source/main.c:106-112 | for rotations 0..3 inside the window the clamping never changes a coordinate |
| `Drawing.RotationInjective` | source/main.c:106-112 | two window cells show two different image pixels |
| `Drawing.BlitRow` | source/main.c:102-120 | one window row takes the rotated image's pixels and nothing else changes |
| `Drawing.BlitWindow` | source/main.c:101-121 | the window's cells take the rotated image's pixels and every other cell is unchanged |
| `Drawing.BlitCenter` | source/main.c:86-122 | the cells of the centred window take the rotated, clamped and optionally swapped image pixels; every other cell is unchanged |
| `Menu.RotateCw` | source/main.c:203 | A yields a rotation in 0..3 |
| `Menu.RotateCcw` | source/main.c:204 | B yields a rotation in 0..3 |
| `Menu.RotationInverses` | source/main.c:203-204 | A and B undo each other, and four A presses are the identity |
| `Menu.CursorLeft` | source/main.c:192-196 | LEFT keeps the cursor in `[0, len)` |
| `Menu.CursorRight` | source/main.c:197-201 | RIGHT keeps the cursor in `[0, len)` |
| `Menu.CursorInverses` | source/main.c:192-201 | LEFT and RIGHT undo each other |
| `Menu.HostUp` | source/main.c:207-211 | L on the host field always yields `.` or a digit |
| `Menu.HostDown` | source/main.c:219-223 | R on the host field always yields `.` or a digit |
| `Menu.HostInverses` | source/main.c:206-229 | on host characters L and R undo each other |
| `Menu.HostCycle` | source/main.c:206-229 | L and R step the cycle `.`, `0` ... `9` forwards and backwards modulo 11 |
| `Menu.PortUp` | source/main.c:213-214 | L on the port field keeps digits as digits and leaves anything else alone |
| `Menu.PortDown` | source/main.c:225-226 | R on the port field keeps digits as digits and leaves anything else alone |
| `Menu.PortInverses` | source/main.c:206-229 | L and R undo each other on every character |
| `Menu.Initial` | source/main.c:146-171 | the initial host `192.168.2.198` and port `8080` with cursors, focus and rotation at 0 satisfy the menu invariant |
| `Menu.MoveLeft` | source/main.c:192-196 | LEFT moves only the focused field's cursor and keeps the menu invariant |
| `Menu.MoveRight` | source/main.c:197-201 | RIGHT moves only the focused field's cursor and keeps the menu invariant |
| `Menu.EditUp` | source/main.c:206-217 | L changes only the character under the focused field's cursor and keeps the menu invariant |
| `Menu.EditDown` | source/main.c:218-229 | R changes only the character under the focused field's cursor and keeps the menu invariant |
| `Menu.Navigate` | source/main.c:187-201 | SELECT toggles the swap, DOWN wins over UP for the focus, and the texts and rotation are untouched |
| `Menu.Edit` | source/main.c:203-229 | A and B turn the rotation, cancelling when pressed together; cursors, focus and swap are untouched; without L and R the texts are too |
| `Menu.HandleKeys` | source/main.c:187-229 | a pass's keys, in the loop's order, keep the cursors in range, the focus in {0, 1}, the rotation in 0..3, host characters in `.`/digits and port characters digits |
| `Menu.PairsCancel` | source/main.c:192-229 | pressing LEFT with RIGHT, A with B, or L with R in the same pass changes nothing |

## Left out

- The HTTP client is not modelled: connecting, reconnecting, and the read with its
  `got` heuristic (source/main.c:231-262, 336-366). The model takes `readFailed`, `got`
  and `reconnectOk` as inputs. The reconnect's effect on the buffer is kept: it empties
  the buffer on success.
- `stbi_load_from_memory` is a third-party decoder whose source is not part of this
  model. The model ends at the decode attempt and its frame.
  - `Drawing.BlitCenter` takes the decoded image as a byte sequence of `w * h * 3` bytes.
  - Nothing is said about what the decoder makes of a frame.
- `now_ms` reads the wall clock. Its value is the parameter `now`.
- The 64-bit `long long` subtraction in the rate check is modelled on unbounded integers.
  Overflow is not modelled, because wall-clock milliseconds are far from the limit.
- The threshold `(int)(STREAM_BUF_SIZE * 0.75)` is computed in floating point. The model
  uses the exact value 393216.
- Console output, menu rendering, HID polling, sleeps, `mkdir` and the flash/torch request
  (source/main.c:264-334) are side effects without state that the core uses.
  - The colours drawn by the menu are `DrawFillRect` calls with constant arguments and
    are not modelled separately.
  - START ending the loop, and Y and X, are network actions. `Menu.HandleKeys` models
    SELECT, UP, DOWN, LEFT, RIGHT, A, B, L and R.
- `malloc` failure for the frame copy is the input `allocOk`.
  - The frame copy is modelled as a sequence value returned by the method.
  - Freeing it is not modelled.
- `memmove` to offset 0 is modelled as a forward byte-by-byte copy. This gives the same
  result, because the target lies below the source.
- `find_bytes` and the `SOI`/`EOI` arrays are unused by the source's loop, which scans by
  hand. `ByteSearch.FindBytes` models the function on its own.
- `Drawing.DrawFillRect` and `Drawing.BlitCenter` are modelled on unbounded integers.
  The C `int` arithmetic (`w += x`, `(sy * img_w + sx) * 3`) could overflow only for
  sizes far beyond a 3DS screen or a decodable image.
- `Drawing.BlitCenter` requires `img_w, img_h > 0` and an image of exactly
  `img_w * img_h * 3` bytes. This is what a successful decode yields, and the source
  blits only after one.
- Framebuffer sizes: both routines require `0 <= fb_w <= fb_stride` and a framebuffer of
  at least `fb_h * fb_stride` cells. The source passes `fb_stride = fb_w` and the
  framebuffer the platform returned.
- `Menu.HandleKeys` requires the menu invariant. The source establishes it at start-up
  and every key keeps it. The host and port lengths are fixed at their initial `strlen`,
  since no edit writes a terminator.
