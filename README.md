# ddpctl in Dafny

A model of ddpctl. The program turns an animated GIF into a timed stream of
Distributed Display Protocol (DDP) packets for a 16×16 RGB LED matrix. The model
covers three pieces and proves properties about them:

- **The DDP encoder** (`ddp_header_serialize`, `DDP_serialize`).
  - It writes a 10-byte header: flags, reserved, type, reserved, then a big-endian 32-bit offset and a big-endian 16-bit length.
  - The raw payload follows the header.
- **Frame extraction** (`extract_gif_frames`).
  - An aspect gate rejects sources that are not near-square.
  - Each LED (x, y) point-samples one source pixel, at column `x·(width/16) + (width/16)/2` and row `y·(height/16) + (height/16)/2`, in integer division. A near-square source under 16 pixels per side gets zero-width cells, so every LED samples pixel (0, 0). The last `width mod 16` columns and `height mod 16` rows are never read.
  - Each channel then passes through correction, brightness and a gamma lookup, in that order.
  - A zero delay is replaced by a 16 ms floor.
- **The playback driver** (the `while` loop of `main`).
  - It writes the packet of the current frame, sleeps for that frame's delay, advances the frame index, wraps it to 0 and counts one more loop.
  - It repeats until the loop count is reached or a serialisation fails.

The model covers both generations of the program:

- The split build: `ddpctl.c`, `src/*.c` and `include/*.h`.
- The single-file build: `main.c` and `ddp.h`.

They share the encoder (the code is identical), the decoder interface and the playback loop. The single-file build:

- accepts only sources of exactly 16×16 pixels;
- does no resampling;
- corrects the rendered buffer in place, with the channel coefficients 1.00, 0.82 and 0.70.

Modules, one file each:

| module | file | models |
|---|---|---|
| `Bytes` | bytes.dfy | fixed-width integers and `htonl`/`htons` byte order |
| `Config` | config.dfy | `include/config.h` and the constants of `main.c` |
| `Clamp` | clamp.dfy | `clamp_u8` (identical in `include/gif.h` and `main.c`) |
| `Color` | color.dfy | the three colour stages of one channel |
| `Protocol` | protocol.dfy | `src/ddp.c` and `ddp.h` |
| `Decoder` | decoder.dfy | the gifdec handle as the extraction code uses it |
| `Gif` | gif.dfy | `extract_gif_frames` of `src/gif.c` |
| `Playback` | playback.dfy | `main` of `ddpctl.c` |
| `Legacy` | legacy.dfy | `extract_gif_frames` and `main` of `main.c` |

Modelling conventions:

- **Allocations.** Every `malloc` whose failure changes the control flow becomes a boolean parameter, with `true` meaning the allocation succeeded. Each tick of playback gets its own pair of outcomes (`packetAllocOk(j)`, `headerAllocOk(j)`), and each frame of extraction gets its own (`bufferAllocOk(i)`).
- **Writes and sleeps.** They are events of an output trace: `Write(packet)` and `Sleep(microseconds)`.
- **Stopping.** Playback with a negative loop count only ends when the process is stopped from outside. The model bounds every run, whatever its loop count, by a `window` of ticks, after which the outcome is `Interrupted` (the `Killed` termination of `main`). A loop count k >= 0 with k·N <= window, where N is the number of frames, is never cut. Only under that bound does the model guarantee exit 0 after k·N packets.
- **Floats.** They are exact rationals. Float-to-integer conversion truncates toward zero. Brightness is a `Level` in [0, 1], the range the option parser accepts for numbers (src/cli.c:22-28, main.c:56-62).
- **Fixed-width integers.** `uint8_t`, `uint16_t` and `uint32_t` are integer subset types, so the 16-bit length field can never exceed 65535.

The model follows the code in these details:

- There is no "payload too large" check in the encoder. A length above 65535 cannot be represented in the header's `uint16_t` in the first place.
- The result of `fwrite` is not checked, so a failed write does not stop playback. Only a serialisation failure does.
- When the packet allocation fails, `DDP_serialize` clears its local copy of the `packet_size` pointer, not the size it points to (src/ddp.c:45). `*packet_size` therefore keeps the value 10 + length. The caller still detects the failure from the NULL packet.
- A failed table or frame-buffer allocation during extraction returns 0 after freeing both tables (src/gif.c:55-56 and 75-76, main.c:162-163 and 175-176). The frame buffers already stored in the frame table are never freed. In the split build, whichever of `frame_buffer` and `data_buffer` was allocated also leaks. `*frames` and `*delays_in_ms` are left pointing at the freed tables. The caller cannot tell this apart from NULL tables, because it tests `frame_count == 0` first (ddpctl.c:45, main.c:261).
- An interrupted unbounded loop never returns from `main`, so it has no exit code. The model reports it as `Killed`, not as exit code 0.

## Model

| member | source | states |
|---|---|---|
| Clamp.ClampU8 | include/gif.h:10-16 | `clamp_u8`: saturates an int to a byte; its behaviour is stated by the four Clamp lemmas below |
| Clamp.ClampCases | include/gif.h:10-16 | a value in 0..255 is returned unchanged, a negative value gives 0, a value above 255 gives 255; the result is a byte by type; `clamp_u8` of main.c:123-129 is the same function |
| Clamp.ClampIsNearest | include/gif.h:10-16 | the clamped value is the byte closest to the input |
| Clamp.ClampMonotone | include/gif.h:10-16 | x <= y implies clamp(x) <= clamp(y) |
| Clamp.ClampIdempotent | include/gif.h:10-16 | clamping twice is clamping once |
| Bytes.Be16 | src/ddp.c:21 | `htons`: two bytes, most significant first, whose weighted sum is the value |
| Bytes.Be32 | src/ddp.c:20 | `htonl`: four bytes, most significant first, whose weighted sum is the value |
| Bytes.Be16Inverse | src/ddp.c:21-24 | big-endian decoding of the two length bytes recovers the length |
| Bytes.FromBe16Inverse | src/ddp.c:21-24 | every two-byte string is the encoding of the value decoded from it |
| Bytes.Be32Inverse | src/ddp.c:20-23 | big-endian decoding of the four offset bytes recovers the offset |
| Bytes.FromBe32Inverse | src/ddp.c:20-23 | every four-byte string is the encoding of the value decoded from it |
| Protocol.HeaderBytes | src/ddp.c:15-24 | the ten bytes `ddp_header_serialize` leaves in its buffer; always exactly 10 bytes |
| Protocol.PacketBytes | src/ddp.c:42-56 | the header bytes followed by the first `length` payload bytes; always 10 + length bytes long |
| Protocol.HeaderLayout | src/ddp.c:9-27 | the header is exactly 10 bytes: flags, res1, type, res2 at 0..3, the offset big-endian at 4..7, the length big-endian at 8..9, and both decode back |
| Protocol.HeaderRoundTrip | src/ddp.c:15-24 | a receiver parsing the 10 bytes recovers every header field |
| Protocol.ParseThenSerialize | src/ddp.c:15-24 | every 10-byte string is the serialisation of the header parsed from it, so the encoding is a bijection |
| Protocol.PacketLayout | src/ddp.c:42-56 | a packet is 10 + length bytes: the serialised header, then the first `length` data bytes unmodified |
| Protocol.PacketRoundTrip | src/ddp.c:55-56 | a receiver splits a packet back into the header and payload that were sent |
| Protocol.MemCpy | src/ddp.c:23-24 | the copied range equals the source; the bytes before and after it are unchanged |
| Protocol.SerializeHeader | src/ddp.c:9-27 | NULL exactly when the allocation fails, otherwise a fresh buffer equal to the header bytes; the copy in ddp.h:24-42 is the same code |
| Protocol.Serialize | src/ddp.c:38-60 | a NULL argument gives NULL with no size written; otherwise the size is 10 + length, even when an allocation then fails; the packet is non-NULL exactly when both allocations succeed, and then it is fresh and equal to header bytes + data[0..length); the copy in ddp.h:49-71 is the same code |
| Decoder.GifHandle.Open | src/gif.c:26 | a successfully opened handle has its dimensions and frames and is positioned before the first frame |
| Decoder.GifHandle.GetFrame | src/gif.c:46 | reports a frame exactly while frames remain, and then advances past it |
| Decoder.GifHandle.Rewind | src/gif.c:49 | repositions the handle before the first frame |
| Decoder.GifHandle.Render | src/gif.c:82 | fills the width × height × 3 buffer with the current frame's pixels |
| Color.Correct | src/gif.c:95-97 | stage 1, `clamp_u8((int)(v * coef))` with truncation toward zero; its properties are CorrectUnit, CorrectDarkens and CorrectMonotone |
| Color.Gamma | src/gif.c:105-107 | stage 3: the clamp before the table lookup never changes a byte, so the result is `lut[v]` |
| Color.ProcessChannel | src/gif.c:94-107 | one channel through correction, brightness and gamma, in that order; its properties are PipelineIdentity and ProcessChannelMonotone |
| Color.Dim | src/gif.c:100-102 | brightness in [0, 1] with truncation never makes a channel brighter |
| Color.DimFull | src/gif.c:100-102 | brightness 1 is the identity |
| Color.DimMonotone | src/gif.c:100-102 | the brightness stage preserves the order of channel values |
| Color.CorrectUnit | include/config.h:19-21 | the split build's coefficients of 1.00 make the correction stage the identity on bytes |
| Color.CorrectDarkens | main.c:29-31 | a coefficient in [0, 1], as all of the single-file build's are, never brightens a channel |
| Color.CorrectMonotone | src/gif.c:95-97 | correction with a non-negative coefficient preserves the order of channel values |
| Color.PipelineIdentity | src/gif.c:94-107 | unit correction, full brightness and an identity table pass a byte through all three stages unchanged |
| Color.ProcessChannelMonotone | src/gif.c:94-107 | with a non-decreasing gamma table, a brighter source channel never gives a darker LED channel |
| Gif.SquareEnough | src/gif.c:34-36 | the float gate `fabsf(width / height - 1) <= 0.02`, on exact rationals; its integer form is SquareEnoughIntegral |
| Gif.SquareEnoughIntegral | src/gif.c:34-36 | the gate accepts exactly when 49·height <= 50·width <= 51·height: a ratio within 0.02 of 1, not a comparison with the matrix shape |
| Gif.GateBoundaries | src/gif.c:34-36 | every n×n source passes; 51×50 and 49×50 pass, 52×50, 48×50 and 32×20 are rejected |
| Gif.SamplePoint | src/gif.c:61-87 | the sample point `x·cell_w + cell_w/2`, `y·cell_h + cell_h/2` lies inside the source, and inside cell (x, y) when the source has at least 16 pixels per side |
| Gif.SampleCoverage | src/gif.c:61-62 | a side under 16 pixels gives zero-width cells, so every LED samples column or row 0; otherwise the sample stays below 16·(side/16), so the last side mod 16 columns or rows are never read |
| Gif.SampleIndex | src/gif.c:88-92 | the pixel index `py·width + px` is below width·height, so every read is in bounds |
| Gif.LedPosition | src/gif.c:110-113 | LED (x, y) channel c is byte 3·(16y + x) + c, below 768, and that byte maps back to (x, y, c) |
| Gif.ByteToLed | src/gif.c:84-85 | every one of the 768 payload bytes is channel k mod 3 of the LED at column (k/3) mod 16 and row (k/3)/16, so the nested loops reach every byte |
| Gif.SampledFrame | src/gif.c:84-113 | the 768-byte payload the nested loops produce from one rendered frame; always 768 bytes, and SampledFrameAt gives each byte |
| Gif.SampledFrameAt | src/gif.c:84-113 | byte 3·(16y + x) + c of a frame is channel c of the pixel sampled for LED (x, y), through correction, brightness and gamma in that order |
| Gif.IdentitySettingsSample | src/gif.c:84-113 | with neutral settings the sampler is a pure point sampler: each LED shows its sampled source pixel |
| Gif.ResolveDelay | src/gif.c:145-146 | the stored delay is positive: 16 ms for a zero delay, otherwise ten times the hundredths of a second; main.c:212-213 uses the same rule |
| Gif.CountFrames | src/gif.c:45-49 | the counting pass returns the number of frames and leaves the handle rewound |
| Gif.ProcessPixel | src/gif.c:90-107 | each of R, G and B is the channel's value through correction, brightness and its own gamma table |
| Gif.SampleLed | src/gif.c:86-113 | one iteration writes exactly the three bytes of LED (x, y), with the pipeline applied to its sampled pixel, and changes no other byte |
| Gif.FillLeds | src/gif.c:84-115 | after the nested loops, the 768-byte buffer is exactly the sampled, processed frame |
| Gif.RenderAndSample | src/gif.c:69-115 | a fresh 768-byte buffer holding the sampled frame of the current source frame |
| Gif.ReadFrames | src/gif.c:64-149 | succeeds exactly when every frame's buffers are allocated; then frame i holds the sampled frame i and delay i its resolved delay |
| Gif.ExtractGifFrames | src/gif.c:23-154 | a missing handle or a failed gate gives 0 and NULL tables; the count is positive exactly when the gate, the counting pass (at least one frame) and every allocation succeed; then it equals the frame count, and the tables hold every sampled frame and every resolved delay in file order |
| Playback.Tick | ddpctl.c:55-75 | one iteration's output: exactly one write of a 778-byte packet, then one sleep |
| Playback.Schedule | ddpctl.c:53-82 | m ticks produce 2m events |
| Playback.ScheduleAt | ddpctl.c:55-75 | tick j writes the packet of frame j mod N, then sleeps for that same frame's delay, so the write precedes its sleep and the index advances after it |
| Playback.SchedulePrefix | ddpctl.c:66-72 | the trace only grows: m ticks are a prefix of any longer run |
| Playback.FixedHeaderWire | ddpctl.c:27-33 | the fixed header serialises to 41 00 03 00 00 00 00 00 03 00 |
| Playback.ScheduledPacket | ddpctl.c:27-37 | every written packet is 778 bytes: the fixed header followed by the frame unchanged |
| Playback.NextTick | ddpctl.c:75-81 | one more packet advances the index to the next frame, or wraps it to 0 and counts one more loop when it reaches N |
| Playback.LoopsBelowTarget | ddpctl.c:53 | fewer than k loops are done after m packets exactly when m < k·N |
| Playback.Play | ddpctl.c:50-82 | the trace is the first `packets` ticks; it is aborted exactly when fewer ticks ran than planned, and then tick `packets` failed to serialise and all earlier ticks succeeded; a loop count k >= 0 with no failure emits exactly k·N packets and completes; a negative loop count never completes; the loop of main.c:266-298 is the same code |
| Playback.Run | ddpctl.c:18-87 | a failed extraction exits with 1 and writes nothing; otherwise the trace is the schedule of the sampled frames and resolved delays, exit 1 exactly when fewer ticks ran than planned, and then the next tick's serialisation failed while every earlier one succeeded; exit 0 exactly when the loop count was reached; a loop count k >= 0 within the window with no failed serialisation exits 0 after exactly k·N packets |
| Legacy.MatrixSized | main.c:142 | the single-file build's gate: exactly 16 × 16 pixels |
| Legacy.CorrectedFrame | main.c:184-209 | the frame after the in-place per-LED pass; always 768 bytes, and CorrectedFrameAt gives each byte |
| Legacy.CorrectedFrameAt | main.c:184-209 | byte 3i + c of a corrected frame is channel c of LED i through the pipeline |
| Legacy.CorrectLed | main.c:186-208 | one iteration rewrites exactly the three bytes of LED i, and changes no other byte |
| Legacy.CorrectInPlace | main.c:184-209 | after the loop, the buffer is its old content corrected byte by byte, each LED processed once |
| Legacy.RenderAndCorrect | main.c:173-209 | a fresh 768-byte buffer holding the corrected current frame |
| Legacy.ReadFramesStrict | main.c:168-215 | succeeds exactly when every frame buffer is allocated; then frame i holds the corrected frame i and delay i its resolved delay |
| Legacy.ExtractGifFramesStrict | main.c:131-220 | a source not exactly 16×16 gives 0 and NULL tables; otherwise as in the split build, with the frames corrected in place and no resampling |
| Legacy.RunLegacy | main.c:234-303 | a failed extraction exits with 1 before any playback; otherwise the same playback contract as the split build over the corrected frames, including exit 1 only after a failed serialisation and exit 0 after k·N packets when none fails |
| Legacy.BuildsAgreeOnMatrixSizedSource | src/gif.c:84-113 | on a 16×16 source the centre sampling selects every pixel once, in order, so both builds compute the same frame from the same corrections |
| Legacy.LegacyNeverBrightens | main.c:29-31 | with an identity gamma table, the coefficients 1.00, 0.82 and 0.70 never make a byte brighter than the source |

## Left out

- Command-line parsing (`parse_cli` in src/cli.c and main.c) is left out. Its outcome appears as parameter types: brightness is a `Level` in [0, 1], and the loop count is any integer. The model does not need the loop count restricted to −1 or >= 1, and a filename becomes an open decoder handle.
- A NaN brightness is not modelled, because `Level` excludes it. `strtof("nan")` leaves `errno` at 0 and moves the end pointer past the text, and both range comparisons are false for NaN, so `-b nan` passes the option check (src/cli.c:24-25, main.c:58-59). It then reaches the float-to-`uint8_t` conversion at src/gif.c:100-102, whose result is undefined.
- `init_gamma` is left out because it uses `powf`. The gamma tables are a 256-entry parameter per channel.
- The gifdec decoder (`gd_open_gif`, `gd_get_frame`, `gd_render_frame`, `gd_rewind`, `gd_close_gif`) is not part of this model. It is an abstract handle over a fixed frame sequence, so both passes see the same frames, and `gd_close_gif` has no effect here.
- Decoder.GifHandle.Open: requires a width and height of at least 1. A 0×0 source, which the float gate lets through because 0/0 is NaN, is not modelled.
- Float rounding is not modelled. The aspect ratio, the corrections and the brightness are exact rationals, so results at exact float boundaries may differ from the binary32 computation.
- `int` overflow in `width * height * BYTES_PER_LED` and in `py * width` for sources larger than about 26,000 pixels square is not modelled. The model's integers are unbounded.
- `loops_done` is an unbounded counter. Its signed overflow after 2^31 loops of an unbounded run is not modelled.
- Memory management is left out: `free`, `free_frames_and_delays`, `ddp_header_allocate_databuf` (never called), and the leaks on extraction failure paths. A failed allocation only takes its failure branch.
- `fwrite`, `fflush` and `usleep` are `Write` and `Sleep` trace events. A failed or short write is not modelled, matching the code, which ignores the result.
- `DDP_hexdump` is left out because it only prints.
- Playback.Play: every run is cut after `window` ticks (a stop from outside), whatever its loop count. A bounded run with k·N > window therefore ends `Interrupted`, and `Run`/`RunLegacy` report it as `Killed`, which the program never does on its own. The exit-0-after-k·N guarantee of Play, Run and RunLegacy holds only for k·N <= window. The model says nothing about the process after the window.
- Gif.ExtractGifFrames: on a failure after the tables were allocated it returns NULL tables, where the C code leaves `*frames` and `*delays_in_ms` dangling at freed memory. The same holds for Legacy.ExtractGifFramesStrict. The caller never reads them, because the count is 0.
- Diagnostic messages on standard error are left out.
