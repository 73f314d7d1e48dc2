# inexio touchscreen driver core, in Dafny

This project models the input path of the X.Org inexio serial touchscreen
driver (`src/xf86inexio.c`). The device sends five-byte packets: a status
byte (0x80 for a release, 0x81 for a touch), then x and y as high and low
7-bit fields.

The driver keeps one record, `InexioDeviceRec`. Each time input is
available it does three things:

1. It reads at most `5 - bufferi` bytes into the 256-byte `buffer` at
   `buffer[bufferi]`.
2. `_inexio_read_packet` frames what is waiting:
   - bytes without the top bit are skipped;
   - a status byte with at least five bytes from it is copied into `body`,
     the rest of the buffer is moved to the front and the scan restarts;
   - a shorter tail is kept at the front for the next read.
3. On Success the translator posts one absolute motion event and, when the
   touch state changed, one button event. A release reports the last
   touched position.

The model has five modules:

- `InexioPacket` (packet.dfy): a byte, the packet constants, and `Split`,
  a reference framing of a byte run into packets and a left-over tail. It
  also holds coordinate decoding and its inverse.
- `InexioFramer` (framer.dfy): `_inexio_read_packet` on values, over the
  whole buffer (`Scan`/`Finish`, including what `memmove` leaves past the
  fill). It is proved equal to `Split` on the pending bytes, and the read
  step `Feed` is modelled as written.
- `InexioTranslator` (translator.dfy): one packet's translation, and runs
  of packets with event counts.
- `InexioInput` (input.dfy): the record as a value, one pass of the
  read/frame/translate loop (`Step`), and a run of passes over given read
  results (`Run`).
- `InexioDriver` (device.dfy): the record as a class. `buffer` and `body`
  are arrays updated in place, and `events` is a ghost record of the events
  posted. Every method is proved against the matching function above.

### Where the code differs from the packet format in its own comments

The comments at src/xf86inexio.c:316-324 describe a packet as 0x80 or
0x81 followed by four 7-bit fields. The code is looser:

- **Status bytes.** The framer tests only the top bit (`c & 0x80`), so
  every byte from 0x80 to 0xFF starts a packet, not just 0x80 and 0x81.
- **Touch flag.** The touch flag is bit 0 of that byte.
- **Coordinates.** The four coordinate bytes are never checked. A
  coordinate stays within 0..0x3FFF when both of its bytes are 7-bit
  fields; otherwise it can reach 0x807F (`Coord`).

### Behaviour of the read step and the framer

- **Read count is assigned, not added.** The read step assigns the return
  value of `read()` to `bufferi` (line 335).
  - With k bytes waiting and m bytes read, the framer then sees the first
    m bytes of the buffer. The waiting bytes come first. The last min(k, m)
    bytes read are ignored, and so are any waiting bytes past m.
  - A partial frame that is waiting therefore never completes: the pass
    posts nothing, whatever the read returns (`PartialFrameNeverCompletes`).
    For a packet split 3 + 2, the fill becomes 2 and holds the first two
    bytes (`SplitReadIsNotReassembled`). So the packets found do depend on
    how the bytes arrive in chunks.
  - A read error (-1) drops a waiting partial frame
    (`ErrorDropsPartialFrame`), and so does a read of 0 bytes.
  - After a pass that leaves a partial frame, the driver posts nothing
    until a read returns 0 or -1. The frame's status byte stays at
    `buffer[0]`, and every later read writes behind it. The fill becomes
    the number of bytes read, fewer than five, so the framer stops at that
    byte again (`PartialFrameKeepsStatus` for one pass, `StallOverRun`
    for a whole run of such reads).

  The model follows the code.
- **More than one frame per call.** One call consumes every complete frame
  it finds, and `body` keeps only the last one. The read step never lets
  two frames be waiting at once (`FeedAtMostOnePacket`), so no frame is
  overwritten in `body` before it is translated.

## Model

| member | source | states |
|---|---|---|
| InexioPacket.IsStatus | src/xf86inexio.c:598 | the framer's status test looks only at the top bit, so every byte from 0x80 to 0xFF starts a packet; `StatusIsTopBit` ties it to the mask |
| InexioPacket.StatusIsTopBit | src/xf86inexio.c:598 | a byte is a status byte exactly when `c & INEXIO_BUTTON_UP` on the 8-bit value is non-zero |
| InexioPacket.DownIsBitZero | src/xf86inexio.c:342 | the touch flag is exactly `body[0] & 1` on the 8-bit value |
| InexioPacket.IsDown | src/xf86inexio.c:342 | the touch flag is bit 0 of the status byte: true for INEXIO_BUTTON_DOWN (0x81), false for INEXIO_BUTTON_UP (0x80) |
| InexioPacket.Coord | src/xf86inexio.c:346-347 | `low + (high << 7)` is never negative, is at most 0x807F, and stays within INEXIO_MAX_X/Y (0x3FFF) when both bytes are 7-bit fields |
| InexioPacket.EncodeCoord | src/xf86inexio.c:316-324 | the device-side packing of a coordinate in 0..0x3FFF gives two 7-bit fields |
| InexioPacket.DecodeEncode | src/xf86inexio.c:346-347 | decoding undoes the packing for every coordinate in 0..0x3FFF |
| InexioPacket.EncodeDecode | src/xf86inexio.c:346-347 | packing undoes decoding for every pair of 7-bit fields |
| InexioPacket.DecodeExample | src/xf86inexio.c:342-347 | the packet {0x81, 0x01, 0x02, 0x00, 0x05} is a touch at (130, 5) |
| InexioPacket.FirstStatus | src/xf86inexio.c:595-604 | the index where skipping bytes without the top bit stops: no earlier byte has it, and the byte there has it |
| InexioPacket.Split | src/xf86inexio.c:595-619 | the reference framing: every packet is five bytes led by a status byte; the tail is empty or is a status byte with fewer than five bytes; the tail is no longer than the input |
| InexioPacket.SplitFirst | src/xf86inexio.c:595-618 | a packet is found exactly when the first status byte has five bytes from it; the first packet is those five bytes; otherwise the tail is everything from that byte on |
| InexioPacket.SplitAllNoise | src/xf86inexio.c:597-604 | a run without any status byte gives no packet and an empty tail |
| InexioPacket.SplitNoiseThenPacket | src/xf86inexio.c:597-616 | noise before a packet is dropped, the packet comes first, and framing then continues on the bytes after it |
| InexioPacket.SplitPacket | src/xf86inexio.c:608-616 | a packet on its own frames to itself with an empty tail |
| InexioPacket.SplitTailIsSuffix | src/xf86inexio.c:611-613 | the tail is a contiguous suffix of the input, in order |
| InexioPacket.SplitTailIsStable | src/xf86inexio.c:618 | framing the tail again gives no packet and the same tail |
| InexioPacket.NoiseSkippedTailKept | src/xf86inexio.c:595-625 | for noise, then a packet, then a status byte: exactly that packet is taken and the status byte is left as the tail |
| InexioFramer.MoveFrontElements | src/xf86inexio.c:611-612 | `memmove` to the front: the first len bytes are the bytes from `from` on; every later byte keeps its value |
| InexioFramer.MoveFront | src/xf86inexio.c:611-612 | `memmove` to the front keeps the buffer's length; its contents, byte by byte, are stated by `MoveFrontElements` |
| InexioFramer.Scan | src/xf86inexio.c:595-619 | the scanning loop from `count` keeps the record's shape and leaves a fill of at least 0; what it computes is stated by `ScanMatchesSplit` against `Split`, and each round by `ScanSkip`, `ScanTake` and `ScanStop` |
| InexioFramer.Finish | src/xf86inexio.c:621-625 | the code after the loop keeps the record's shape and clamps the fill at 0; `ScanStop` ties it to the end of the scan |
| InexioFramer.ReadPacket | src/xf86inexio.c:580-627 | one call keeps the record's shape and leaves a fill of at least 0; its result is stated by `ReadPacketMatchesSplit`, `ReadPacketSuccess`, `ReadPacketPostState` and `ReadPacketAllNoise` |
| InexioFramer.ScanSkip | src/xf86inexio.c:597-604 | a byte without the top bit is stepped over |
| InexioFramer.ScanTake | src/xf86inexio.c:608-616 | a status byte with five bytes to the fill: its five bytes go into `body[0..5]`, the rest moves to the front, the fill shrinks by count + 5, Success is set and the scan restarts at 0 |
| InexioFramer.ScanStop | src/xf86inexio.c:618-625 | otherwise the loop ends: the bytes from count move to the front, the fill drops by count and is clamped at 0 |
| InexioFramer.ScanMatchesSplit | src/xf86inexio.c:595-625 | the scan from count frames `buffer[count..bufferi]` as `Split` does: what stays filled is the tail; Success is reported when a frame is taken now or was before; `body` holds the last frame, with bytes 5..15 untouched |
| InexioFramer.TakeMatchesSplit | src/xf86inexio.c:608-616 | the same agreement with `Split` for a scan that takes a frame at count |
| InexioFramer.ReadPacketMatchesSplit | src/xf86inexio.c:580-627 | one call leaves exactly the tail of `Split` of the pending bytes; it succeeds exactly when there is a packet; `body` then holds the last packet, and is unchanged otherwise; a negative fill is clamped to 0 and nothing else changes |
| InexioFramer.ReadPacketSuccess | src/xf86inexio.c:595-618 | Success exactly when the first status byte has five bytes from it to the fill; on Success `body[0]` has the top bit and `body[0..5]` is the last packet; on failure `body` is unchanged |
| InexioFramer.ReadPacketPostState | src/xf86inexio.c:595-625 | afterwards the fill is 0, or is 1 to 4 with a status byte at `buffer[0]`; it never grows; the bytes left are a suffix of the pending bytes, in order, and hold no complete frame |
| InexioFramer.ReadPacketAllNoise | src/xf86inexio.c:597-604 | an all-noise buffer ends empty, the call fails, and `body` is unchanged |
| InexioFramer.Feed | src/xf86inexio.c:334-337 | the read step as written: with a fill above 5 nothing happens; otherwise an error sets the fill to -1 and leaves the buffer, or the bytes read land at `buffer[bufferi]` and the fill becomes their number, at most 5 |
| InexioFramer.FeedKeepsOtherBytes | src/xf86inexio.c:334-337 | the read writes only where it was told to: an error leaves the whole buffer unchanged, and a read changes no byte outside the span from `bufferi` that holds the bytes read, so the bytes already waiting and every byte from index 5 on keep their values |
| InexioFramer.FeedAtMostOnePacket | src/xf86inexio.c:334-340 | after a read from a fill below 5, the framer holds at most one complete frame |
| InexioFramer.SplitTwoPacketsNeedTen | src/xf86inexio.c:608 | two packets need at least ten bytes |
| InexioTranslator.Translate | src/xf86inexio.c:342-375 | the stored flag follows bit 0 of the status byte; a touch stores and reports the decoded position, a release reports the stored one; exactly one motion event comes first; a button event follows exactly when the state changed, at the same position |
| InexioTranslator.ReleaseHoldsPosition | src/xf86inexio.c:353-357 | a release after a touch posts a motion event and a button-up event at the touched position, not at the coordinates the release carries |
| InexioTranslator.RepeatedTouchPostsOneButton | src/xf86inexio.c:368-375 | of two touch packets in a row, only the first can post a button event, and only when the state was released |
| InexioTranslator.TranslateAllSummary | src/xf86inexio.c:342-375 | over a run of packets: one motion event per packet, one button event per change of touch state, and the last touched position held through releases |
| InexioTranslator.CountsOfTranslate | src/xf86inexio.c:359-375 | one packet posts one motion event, and a button event exactly when it posts two events |
| InexioInput.Initial | src/xf86inexio.c:275-278 | the record after `xcalloc` and `InexioPreInit`: empty buffer, released, at (0, 0) |
| InexioInput.Step | src/xf86inexio.c:334-375 | one pass of the loop keeps the record well-formed and leaves the fill below 5; its events are none, or start with a motion event |
| InexioInput.Run | src/xf86inexio.c:332-384 | a run of passes keeps the record well-formed, and the fill is below 5 after each pass |
| InexioInput.RunFitsBefore | src/xf86inexio.c:334-337 | if every read of a run fits, so does every read of each prefix of the run |
| InexioInput.RunExtends | src/xf86inexio.c:332-384 | a run that reached pass i goes on by exactly that pass |
| InexioInput.RunOfWholePackets | src/xf86inexio.c:332-384 | when each read delivers one whole packet into an empty buffer, the run posts exactly what translating the packets in order posts, and ends with an empty buffer |
| InexioInput.RunOfWholePacketsCounts | src/xf86inexio.c:332-384 | for such a run: one motion event per packet, one button event per change of touch state, and the last touched position held |
| InexioInput.ErrorDropsPartialFrame | src/xf86inexio.c:335 | a read error empties the buffer, posts nothing and leaves the touch state unchanged |
| InexioInput.WholePacketIsTranslated | src/xf86inexio.c:334-375 | one whole packet read into an empty buffer is framed into `body[0..5]` and translated, and the buffer is empty again |
| InexioInput.PartialFrameNeverCompletes | src/xf86inexio.c:334-340 | with 1 to 4 bytes waiting, a pass posts no event whatever the read returns, because the fill is set to the bytes read, fewer than five |
| InexioInput.PartialFrameKeepsStatus | src/xf86inexio.c:334-340 | with 1 to 4 bytes waiting behind a status byte at `buffer[0]`, a pass posts nothing and keeps the touch state; the buffer ends empty exactly when the read returned 0 bytes or an error, and otherwise the same status byte is still at `buffer[0]` |
| InexioInput.StallOverRun | src/xf86inexio.c:332-340 | from a partial frame with its status byte in front, every run of reads that each return at least one byte posts no event, keeps the touch state, and keeps that status byte in front with a non-empty fill |
| InexioInput.SplitReadIsNotReassembled | src/xf86inexio.c:335 | three bytes of a packet waiting and its last two read next: the fill becomes 2, nothing is posted and the touch state is kept, although the five bytes form a packet |
| InexioDriver.InexioDevice.constructor | src/xf86inexio.c:275-278 | a fresh record equals `Initial()`, with no events posted |
| InexioDriver.InexioDevice.ReadPacket | src/xf86inexio.c:580-627 | the loop over count, with `memcpy`/`memmove` on the arrays, leaves buffer, fill, `body` and result exactly as `InexioFramer.ReadPacket` of the old state |
| InexioDriver.InexioDevice.TakeFrame | src/xf86inexio.c:610-613 | taking the frame at count: `body[0..5]` is that frame, the buffer is moved to the front, the fill shrinks by count + 5 |
| InexioDriver.InexioDevice.Compact | src/xf86inexio.c:621-625 | the code after the loop, exactly as `Finish` |
| InexioDriver.InexioDevice.CopyToBody | src/xf86inexio.c:610 | `memcpy` of five bytes into `body`; bytes 5..15 of `body` are unchanged |
| InexioDriver.InexioDevice.MoveToFront | src/xf86inexio.c:611-612 | `memmove` in place equals `MoveFront` of the old buffer |
| InexioDriver.InexioDevice.Feed | src/xf86inexio.c:334-337 | the read step in place equals `InexioFramer.Feed` of the old buffer and fill |
| InexioDriver.InexioDevice.PostPacket | src/xf86inexio.c:342-375 | the touch fields and the events posted are exactly as `Translate` of the old touch state and `body[0..5]` |
| InexioDriver.InexioDevice.ReadInputStep | src/xf86inexio.c:334-375 | one pass in place equals `Step` of the old record |
| InexioDriver.InexioDevice.ReadInput | src/xf86inexio.c:332-384 | the loop over a sequence of read results equals `Run` of the old record, with the events of all passes appended in order |

## Left out

- Registration and the X server ABI glue (`InexioPlug`, `InexioUnplug`, the version record): only calls into the X server.
- Option parsing, opening and configuring the serial line, and `InexioControl`: I/O and X server calls. Of `InexioPreInit` only the initial record values are modelled.
- The readiness test of `xf86WaitForInput`: it is external. `ReadInput` and `Run` take the results of the reads that happen while the line reports input, in order. `SYSCALL` is a macro defined outside this file, so its retry is not modelled. The usual form of that macro repeats the call while it returns -1 with `errno` set to `EINTR`. With that form, `bufferi` is already -1 when the call is repeated, so the retried `read()` writes at `&buffer[-1]` and asks for 6 bytes. The model covers only a single call.
- What `read()` returns is a parameter, either bytes or an error (-1). A result longer than the count asked for cannot occur. Should one appear in the list given to `Run`, the run stops there with `fits` false, and `ReadInput` requires that none appears.
- The posting calls `xf86PostMotionEvent` and `xf86PostButtonEvent` are modelled as events appended to a ghost sequence. Both are absolute, start at valuator 0 and carry two axes.
- `_inexio_init_buttons`, `_inexio_init_axes` and `InexioConvertProc`: X server registration, and scaling by `xf86ScaleAxis`, whose definition is not part of this model.
- Axis swap and raw or scaled reporting: `swap_axes` is set to 0 and never read, and no reporting mode exists in the code.
- src/xf86inexio.h is not part of this model: it defines a different record that the .c file does not use.
- The commented-out USB initialisation and acknowledgement writes: dead code.
- Byte masks are modelled as arithmetic on bytes `0..0xFF`: `c & 0x80` as `c >= 0x80`, `b & 1` as `b % 2 == 1`, `high << 7` as `high * 0x80` (no overflow in `int`).
- The record fields `device`, `screen_*`, `min_*`/`max_*` and `swap_axes`: the core does not use them.
