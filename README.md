# K210 ISP flasher, modelled in Dafny

`KFlash.write` in `kflash.js` flashes a firmware image onto a Kendryte K210
over a serial link. It works in two stages:

- It resets the chip into its boot ROM's in-system-programming (ISP) mode.
- It uploads a flash stub into SRAM and boots it. It then talks to the stub
  to change the baud rate, initialise the flash and write the firmware in
  65536-byte frames.
- Every message is SLIP-framed (RFC 1055). Every command packet is a
  little-endian opcode, a reserved zero word, a CRC-32 of the payload and
  the payload.

The model keeps the protocol engine and drops the browser plumbing.

- **The device** is the queue of buffers the serial reader will still
  deliver, one element per `reader.read()`.
- **The port** is a log of `Event`s: a written frame, a DTR or RTS setting,
  or a baud change.
- **Each phase** of the session is a pure function from the queue to a
  `Run`. A `Run` holds how the phase ended (`Done`, `Threw(e)`, or `Stopped`
  when the reader has nothing left), the events in order, and the buffers
  left unread.
- **`Flasher.Loader`** is the imperative `MAIXLoader`. Its fields are the
  queue, the log and the `address` that `flash_firmware` advances. Each
  method is proved to do exactly what the matching `Protocol` function
  says. The properties of the session are proved about those functions.

The modules, in dependency order:

- `Results`: Option and Result, and a few sequence lemmas.
- `Bytes`: the byte type, little-endian packing, CRC-32 and byte-to-character conversion.
- `Slip`: the encoder; the receive scan of `recv_one_return` as written; and the decoder it was meant to be.
- `Packets`: the command packets, the NOP frames, and the chunk and frame plans of the two upload loops.
- `Responses`: the two response parsers and the acknowledgement rule.
- `Protocol`: the session as functions.
- `Flasher`: the session as the class `Loader`.
- `Port`: `readLine`.

Behaviours of the code worth knowing:

- The ISP greeting loop is unbounded; the "15 attempts" check only logs.
- Responses shorter than two bytes are not rejected: the missing fields parse as NaN.
- The debug text of a response is always empty.
- A receive does not accumulate bytes across reads. Each read buffer that holds a 0xC0 is scanned on its own, from index 1.
- A malformed escape has a different effect in each phase:
  - in the upload loops, the whole session ends with "Invalid SLIP escape";
  - `flash_greeting` retries it without checking the limit; the pass is still counted;
  - `init_flash` throws "InitalizeFlashError" at once.
- There is no working receive timeout.

## Model

| member | source | states |
|---|---|---|
| Bytes.LE16RoundTrip | kflash.js:406-409 | reading back a packed u16 gives the value modulo 2^16 |
| Bytes.LE32RoundTrip | kflash.js:411-413 | reading back a packed u32 gives the value modulo 2^32 |
| Bytes.Crc32 | kflash.js:415-419 | the checksum word is an unsigned 32-bit value |
| Bytes.Latin1 | kflash.js:68 | `String.fromCharCode` of each byte: one character per byte, with the byte's code |
| Slip.Escape | kflash.js:221-225 | the escaped body is at least as long as the packet and at most twice as long |
| Slip.Encode | kflash.js:218-231 | a frame is the escaped packet between two 0xC0 bytes: 2 to 2·len + 2 bytes long |
| Slip.EscapeAppend | kflash.js:221-225 | escaping works byte by byte: escaping `a + b` is escaping `a`, then `b` |
| Slip.EscapeShape | kflash.js:221-225 | the escaped body is one byte longer per 0xC0 or 0xDB and holds no 0xC0 |
| Slip.EscapeClean | kflash.js:221-225 | a payload with no 0xC0 or 0xDB is copied unchanged |
| Slip.EncodeFraming | kflash.js:218-231 | a frame is `len + 2 + count(0xC0, 0xDB)` bytes long, with 0xC0 at both ends and nowhere else |
| Slip.Unframe | kflash.js:295-309 | the as-written scan throws only "Invalid SLIP escape", and only when it is already in escape mode or a 0xDB lies ahead of it |
| Slip.UnframeCleanFrom | kflash.js:297-309 | over bytes that are neither 0xC0 nor 0xDB, the scan returns exactly those bytes up to the closing 0xC0 |
| Slip.UnframeEncodeClean | kflash.js:295-309 | for a payload with no 0xC0 or 0xDB, scanning its frame returns the payload |
| Slip.UnframeEscapeLatch | kflash.js:301-306 | once in escape mode, the scan succeeds iff a 0xC0 comes with only 0xDC or 0xDD before it; anything else throws |
| Slip.UnframeUpToEscape | kflash.js:297-309 | the scan up to the first 0xDB copies the bytes, then continues in escape mode |
| Slip.UnframeThrowsAfterEscape | kflash.js:297-309 | after the first 0xDB, the whole scan succeeds iff the escape-mode condition holds |
| Slip.UnframeOpenFrom | kflash.js:297-309 | with no closing 0xC0, the scan copies the rest and then appends `undefined` |
| Slip.UnframeUnterminated | kflash.js:297-309 | an unterminated buffer scans to its bytes from index 1, followed by `undefined` |
| Slip.UnframeMisreadsEscapes | kflash.js:301-308 | on concrete frames, the scan returns the raw escape bytes and throws on a byte that RFC 1055 decoding accepts |
| Slip.UnframeRestartsAtOne | kflash.js:295-298 | on a concrete buffer, the scan starts at index 1 rather than after the first 0xC0 |
| Slip.Unescape | kflash.js:297-309 | the corrected un-escaping succeeds only on input holding a closing 0xC0, and returns fewer bytes than it read |
| Slip.Decode | kflash.js:283-309 | the corrected decoder reports a missing frame start exactly when the buffer has no 0xC0; a decoded payload is at least two bytes shorter than the buffer |
| Slip.UnescapeEscape | kflash.js:283-309 | the corrected decoder undoes escaping up to the closing 0xC0 |
| Slip.DecodeEncode | kflash.js:283-309 | the corrected decoder inverts `write`'s framing for every payload, whatever follows the frame |
| Slip.DecodeSkipsNoise | kflash.js:283-291 | the corrected decoder discards the bytes before the first 0xC0 |
| Slip.DecodeUnterminated | kflash.js:297-309 | the corrected decoder reports a frame with no closing 0xC0 as an error |
| Slip.UnframeAgreesWithDecode | kflash.js:283-309 | on payloads with no 0xC0 or 0xDB, the as-written scan and the corrected decoder agree |
| Packets.OpOf | kflash.js:405-410 | every opcode fits in the u16 opcode field |
| Packets.Command | kflash.js:405-421 | a command packet is eight header bytes longer than its payload |
| Packets.PayloadOf | kflash.js:411-477 | write payloads are eight bytes longer than their data, boot and flash-init payloads are eight bytes, the baud-rate payload twelve |
| Packets.PackCarries | kflash.js:405-421 | a packet carries its payload whole after the header, and a write's payload carries its data whole after the address and length |
| Packets.Pack | kflash.js:421 | a packet is the 8-byte header followed by the payload |
| Packets.CommandHeader | kflash.js:405-421 | a command packet is `LE16(op) LE16(0) LE32(crc32(payload)) payload`, with the CRC over the payload only |
| Packets.UnpackCommand | kflash.js:405-421 | a device reading a command packet sees its opcode and payload |
| Packets.InterpretWrite | kflash.js:411-421 | a write payload carries the address and the data, and its length field equals the data length |
| Packets.InterpretPair | kflash.js:460-471 | the boot and flash-init payloads carry their value and a zero word |
| Packets.InterpretBaudrate | kflash.js:441-451 | the baud-rate payload is 0, 4 and the rate |
| Packets.InterpretPayload | kflash.js:405-421 | every request's payload reads back as the request with its fields reduced to 32 bits |
| Packets.UnpackPack | kflash.js:405-421 | unpacking a packed request gives it back, reduced to 32 bits, and unchanged when its fields fit |
| Packets.NopFrames | kflash.js:343-360 | the hard-coded greeting frames `ISP_NOP_FRAME` and `FLASH_NOP_FRAME` are `write`'s framing of 0xC2 (ISP) or 0xD2 (flash stub) followed by 12 zero bytes |
| Packets.Chunks | kflash.js:402-403 | the data is cut into no chunks exactly when it is empty, and each chunk holds 1 to `size` bytes |
| Packets.MemoryPlan | kflash.js:398-431 | one stub packet per 1024-byte chunk, and none exactly when the stub is empty |
| Packets.ChunksCover | kflash.js:402-403 | the chunks concatenate to the data, are all non-empty, are at most 1024 bytes, and all but the last are full |
| Packets.MemoryRequestsAt | kflash.js:398-431 | the k-th memory write goes to `address + 1024·k` with the k-th chunk |
| Packets.MemoryPlanAt | kflash.js:398-431 | the k-th stub packet writes the k-th chunk (1 to 1024 bytes) at `address + 1024·k`, and the chunks rebuild the stub |
| Packets.MemoryPlanFirst | kflash.js:402-403 | the first stub packet takes the first 1024 bytes, and the rest is planned from the next address |
| Packets.PadTo | kflash.js:533-535 | the chunk is kept as its prefix and followed by zeros up to `size` bytes; a chunk already that long is unchanged |
| Packets.FirmwareFrames | kflash.js:530-535 | no frames exactly when the image is empty, and every frame is exactly 65536 bytes |
| Packets.FirmwarePlan | kflash.js:530-563 | one flash write per firmware frame, and none exactly when the image is empty |
| Packets.PaddedChunks | kflash.js:530-535 | the padded frames concatenate to the image followed by the padding zeros |
| Packets.PaddedSizes | kflash.js:533-535 | every padded frame is exactly the frame size |
| Packets.PadAllFirst | kflash.js:530-535 | the first padded frame is the image's first chunk, zero-padded |
| Packets.PadShort | kflash.js:533-535 | a short last chunk is padded with exactly the missing number of zeros |
| Packets.PadLengthFills | kflash.js:533-535 | the image plus its padding is a whole number of frames |
| Packets.FirmwareFramesPadded | kflash.js:530-535 | every firmware frame is 65536 bytes; together they are the image zero-padded to a multiple of 65536 |
| Packets.FlashRequestsAt | kflash.js:530-563 | the k-th flash write goes to `address + 65536·k` with the k-th frame |
| Packets.FirmwarePlanAt | kflash.js:530-563 | the k-th firmware packet writes the k-th 65536-byte frame at `address + 65536·k` |
| Packets.FirmwarePlanFirst | kflash.js:530-535 | the first firmware packet takes the first chunk, padded, and the rest is planned from the next frame address |
| Responses.CodeAt | kflash.js:162-163 | `parseInt(data[k])` is the byte when there is one, otherwise NaN |
| Responses.ParseIsp | kflash.js:160-179 | the op and reason are the first two elements, and the text is always empty |
| Responses.ParseFlash | kflash.js:202-214 | parsing fails iff an element is `undefined`; otherwise the op and reason are the first two elements and the text is empty |
| Responses.AcknowledgedIff | kflash.js:331-338 | the predicate `Acknowledged`, `recv_debug`'s test: it accepts iff the second element is the byte 0x00 or 0xE0 |
| Responses.IsReplyIff | kflash.js:380-383 | a flash-mode reply matches `op` iff it has no `undefined`, starts with `op` and has reason 0xE0 |
| Responses.ParseDebug | kflash.js:160-179 | the corrected parser still takes the op and reason from the first two elements |
| Responses.ParseDebugText | kflash.js:166-173 | the corrected parser returns a debug-info message as its bytes' characters |
| Responses.ParseIspDropsDebugText | kflash.js:166-173 | on a concrete debug-info reply, the as-written parser drops the message that the corrected parser returns |
| Protocol.Scan | kflash.js:295-309 | scanning a buffer never reports an exhausted reader, and throws only on a buffer holding 0xDB |
| Protocol.Receive | kflash.js:271-293 | a receive ends with nothing left iff no remaining buffer holds 0xC0; otherwise it consumes at least one buffer |
| Protocol.ReceiveFirstFrame | kflash.js:274-293 | buffers without 0xC0 are skipped, and the first one with 0xC0 is scanned |
| Protocol.ReceiveEncoded | kflash.js:274-309 | receiving a clean frame gives its payload |
| Protocol.Levels | kflash.js:233-267 | only DTR and RTS events move the line levels: with no DTR event DTR keeps its level, and likewise for RTS |
| Protocol.ResetToIspLevels | kflash.js:233-249 | `RESET_TO_ISP` drives both lines low, holds reset, pulls IO16 low while reset is held, then releases reset, from any starting levels |
| Protocol.ResetToBootLevels | kflash.js:251-267 | `RESET_TO_BOOT` holds reset the same way but releases it with IO16 high, and ends with both lines low |
| Protocol.FlashVerdict | kflash.js:367-383 | a flash-mode reply is matched exactly when it parses with the expected op and 0xE0; a failed scan or parse is told apart from a mismatch, and both give `Failed` |
| Protocol.FlashVerdictChecks | kflash.js:367-383 | the verdict agrees with `FlashModeResponse.parse` followed by the op and reason comparison |
| Protocol.IspVerdict | kflash.js:319-338 | an ISP reply is accepted iff its second byte is 0x00 or 0xE0; a throwing scan is a failure |
| Protocol.IspGreetingRun | kflash.js:574-595 | the greeting loop never throws; each pass consumes input unless the reader is exhausted |
| Protocol.IspGreetingAttempts | kflash.js:574-595 | the greeting loop's events are whole attempts: `reset_to_isp` and the ISP NOP frame, at least once |
| Protocol.IspGreetingRetries | kflash.js:584-591 | garbled replies each cost one more attempt, and the first readable reply ends the loop |
| Protocol.FlashGreetingRun | kflash.js:352-396 | `flash_greeting` ends done, throws "FlashStubError", or runs out of input |
| Protocol.FlashGreetingNext | kflash.js:354-395 | one pass of `flash_greeting`, by verdict: stop, succeed, give up past the limit, or retry |
| Protocol.FlashGreetingWrites | kflash.js:352-396 | `flash_greeting` writes only the NOP frame, at least once, and throws only after more than 10 counted attempts |
| Protocol.FlashGreetingGivesUp | kflash.js:387-391 | eleven mismatched replies make `flash_greeting` throw after exactly eleven writes |
| Protocol.FlashGreetingOutlastsErrors | kflash.js:374-378 | a failed receive is retried without checking the limit (the pass is still counted); any number of them, then a matching reply, ends the greeting |
| Protocol.FlashGreetingAnswered | kflash.js:380-386 | a matching first reply ends `flash_greeting` after one write |
| Protocol.InitFlashRun | kflash.js:476-522 | `init_flash` throws only "InitalizeFlashError" or "InitialFlashError" |
| Protocol.InitFlashNext | kflash.js:492-521 | one pass of `init_flash`, by verdict |
| Protocol.InitFlashBounded | kflash.js:488-521 | `init_flash` writes the same packet 1 to 11 times, and exactly 11 times when it throws "InitialFlashError" |
| Protocol.InitFlashFailsFast | kflash.js:501-505 | a reply that fails to parse throws "InitalizeFlashError" after one write |
| Protocol.InitFlashGivesUp | kflash.js:507-517 | eleven mismatched replies from the start make `init_flash` throw "InitialFlashError" after exactly eleven writes of its packet |
| Protocol.InitFlashAnswered | kflash.js:507-512 | a matching first reply ends `init_flash` after one write |
| Protocol.UploadRun | kflash.js:402-431 | an upload acknowledges at most every packet; it is done iff all are acknowledged; it can only throw "Invalid SLIP escape" |
| Protocol.UploadNext | kflash.js:404-430 | one exchange of an upload, by verdict: a refusal resends the same packet, and an acceptance moves to the next |
| Protocol.Retry | kflash.js:404-430 | the inner retry loop ends done, stopped, or with "Invalid SLIP escape" |
| Protocol.RetryNext | kflash.js:404-430 | one exchange of the inner retry loop, by verdict |
| Protocol.UploadSplit | kflash.js:402-431 | an upload is the retry loop for the first packet, followed by the upload of the rest |
| Protocol.FirmwareSplit | kflash.js:530-563 | the firmware upload is the retry loop for the first padded frame, followed by the upload of the rest |
| Protocol.MemorySplit | kflash.js:402-431 | the stub upload is the retry loop for the first chunk, followed by the upload of the rest at the next address |
| Protocol.FirmwareUpload | kflash.js:530-563 | the frame loop ends done, stopped, or with "Invalid SLIP escape"; it never moves `address` back, and when done it has moved it by 65536 per chunk of the image |
| Protocol.FirmwareUploadIsPlan | kflash.js:530-563 | the frame-by-frame firmware loop does what the firmware plan does, and leaves the address advanced by 65536 per accepted frame |
| Protocol.UploadShape | kflash.js:404-430 | an upload writes packet 1 one or more times, then packet 2, and so on in order; a refusal resends the same packet |
| Protocol.UploadAccepted | kflash.js:402-431 | when every reply is accepted, the upload writes each packet exactly once |
| Protocol.FlashRun | kflash.js:572-622 | a completed session advanced the address by 65536 per firmware frame and ended with `reset_to_boot` |
| Protocol.FlashModeRun | kflash.js:607-621 | the same for the flash-mode steps |
| Protocol.FirmwareRun | kflash.js:617-621 | the same for `flash_firmware` followed by `reset_to_boot` |
| Protocol.FlashRunSucceeds | kflash.js:572-622 | with a cooperative device, the session does exactly the documented steps in order |
| Protocol.StubPhaseSucceeds | kflash.js:572-605 | a readable greeting reply and accepted stub chunks lead into the flash-mode steps |
| Protocol.FlashModeSucceeds | kflash.js:607-621 | matching replies lead through the flash-mode steps with each frame written once |
| Protocol.FirmwareRunSucceeds | kflash.js:617-621 | accepted frames are each written once, then `reset_to_boot` |
| Flasher.Loader.constructor | kflash.js:570 | a loader starts with an empty log |
| Flasher.Loader.Write | kflash.js:218-231 | `write` sends exactly one frame, the escaped packet |
| Flasher.Loader.ResetToIsp | kflash.js:233-249 | the DTR/RTS steps of `reset_to_isp`, the constant `RESET_TO_ISP`, are appended to the log |
| Flasher.Loader.ResetToBoot | kflash.js:251-267 | the DTR/RTS steps of `reset_to_boot`, the constant `RESET_TO_BOOT`, are appended to the log |
| Flasher.Loader.RecvOneReturn | kflash.js:269-317 | the two scanning loops compute `Receive`: the same outcome and the same leftover buffers |
| Flasher.Loader.RecvDebug | kflash.js:319-339 | `recv_debug` returns the ISP verdict of the next reply |
| Flasher.Loader.RecvFlash | kflash.js:367-383 | the receive-and-parse step of the flash-mode loops returns the flash-mode verdict |
| Flasher.Loader.Greeting | kflash.js:341-350 | `greeting` writes the ISP NOP frame and receives one reply |
| Flasher.Loader.FlashGreeting | kflash.js:352-396 | the retry loop of `flash_greeting` behaves as `FlashGreetingRun` |
| Flasher.Loader.WriteUntilAccepted | kflash.js:404-430 | the inner `while (true)` of both upload loops behaves as `Retry` |
| Flasher.Loader.FlashDataframe | kflash.js:398-433 | `flash_dataframe` behaves as the upload of the stub's chunk plan |
| Flasher.Loader.PadFrame | kflash.js:533-535 | the padding loop pads the chunk with zeros to 65536 bytes |
| Flasher.Loader.InstallFlashBootloader | kflash.js:435-437 | the stub is uploaded at 0x80000000 |
| Flasher.Loader.ChangeBaudrate | kflash.js:439-455 | the baud-rate packet is written, then the port is reopened at the new rate |
| Flasher.Loader.Boot | kflash.js:457-474 | the boot packet is written, and no reply is read |
| Flasher.Loader.InitFlash | kflash.js:476-522 | the retry loop of `init_flash` behaves as `InitFlashRun` |
| Flasher.Loader.FlashFirmware | kflash.js:524-566 | `flash_firmware` behaves as the upload of the firmware plan and advances `address` by 65536 per accepted frame |
| Flasher.Loader.FlashFrames | kflash.js:530-564 | the outer frame loop behaves as `FirmwareUpload` |
| Flasher.Loader.EnterIsp | kflash.js:574-595 | the greeting loop behaves as `IspGreetingRun` |
| Flasher.Loader.Flash | kflash.js:572-622 | the whole session behaves as `FlashRun` |
| Flasher.Loader.FlashMode | kflash.js:607-621 | the flash-mode steps behave as `FlashModeRun` |
| Flasher.Loader.Burn | kflash.js:617-621 | `flash_firmware` followed by `reset_to_boot` behaves as `FirmwareRun` |
| Port.Trim | kflash.js:71 | trimming never lengthens the line; `TrimSlice` and `TrimEdges` state what it keeps |
| Port.TrimStart | kflash.js:71 | only leading white space is removed, and the result does not start with white space |
| Port.TrimEnd | kflash.js:71 | only trailing white space is removed, and the result does not end with white space |
| Port.TrimSlice | kflash.js:71 | the trimmed text is the contiguous slice of the line that starts where the leading white space ends |
| Port.TrimEdges | kflash.js:71 | the trimmed text starts and ends with non-white-space; everything cut off on either side is white space |
| Port.TrimIdempotent | kflash.js:71 | trimming twice is trimming once |
| Port.TrimStartPadded | kflash.js:71 | leading white space does not change the result of trimming the start |
| Port.TrimEndPadded | kflash.js:71 | trailing white space does not change the result of trimming the end |
| Port.NewlineIndex | kflash.js:67-70 | the index of the first 0x0A, or the length when there is none |
| Port.ReadLine | kflash.js:65-74 | the line up to and including the first 0x0A, trimmed, and the bytes after it; with no 0x0A, the whole buffer trimmed and nothing left |
| Port.ReadLineSplits | kflash.js:65-74 | the consumed bytes and the rest rebuild the buffer, and no 0x0A comes before the one that ends the line |

## Left out

- Web Serial I/O is replaced by the two queues of `Loader`: the input buffers and the event log. This covers port opening, reader and writer locks, `changeBaud` and `restart`.
- The delays are not modelled. This covers `delay`, `setTimeout` and the waits between steps.
- The receive timeout of `recv_one_return` is left out. It can never fire, because `Date.now / 1000` is NaN.
- `pako.inflate` of the embedded stub is not part of this model: the stub image is a parameter of `Flash`.
- The `crc` library is not part of this model. `Bytes.Crc32` is a standard reflected CRC-32 (polynomial 0xEDB88320).
- `lib/struct.mjs` is not part of this model. Packing a u16 or a u32 is taken to reduce the value modulo 2^16 or 2^32.
- Running out of read buffers is a status of its own, `Stopped`. In the program, a finished reader would throw on `Array.from(undefined)`, or `flash_greeting` would keep retrying. `Stopped` is a model horizon that keeps every loop finite.
- Console output is not modelled, including the "15 attempts" message of the greeting loop.
- The control signal steps carry no timing.
- The `WebAI` class, `Port.readByteArray`, `monitorRead` and the other port helpers are not part of the flashing protocol and are left out.
- `Flasher.Loader.Flash` runs with the session's default arguments: stub and boot address 0x80000000, 2000000 baud and chip type 1.
- `Flasher.Loader.FlashFirmware` takes `address_offset` and, like the program, does not use it.
- The Blob-to-array conversion at the start of `flash_firmware` is left out: the firmware is already a byte sequence.
- The greeting loop's two nested `catch` blocks are merged into one retry, because both only log.
- Port.Trim: covers only characters that one byte can produce. JavaScript's `trim` also removes other Unicode spaces, such as U+FEFF and U+2028, which cannot occur here.
- Bytes.Crc32: no property of the checksum itself is proved (for example a known test vector); packets carry it as an opaque 32-bit value that the device side checks.

## Findings

| source | as written | input that shows it | evidently intended | confidence | as-written member | corrected member |
|---|---|---|---|---|---|---|
| kflash.js:301-308 | after an escape, the raw 0xDB and the escape code are appended too, and escape mode is never left | the frame of the one-byte payload 0xC0, `C0 DB DC C0`, scans to `DB C0 DC`; `C0 DB DC 01 C0` throws "Invalid SLIP escape" | RFC 1055 un-escaping, which gives `C0` and `C0 01` | not executed | Slip.UnframeMisreadsEscapes | Slip.DecodeEncode |
| kflash.js:295-298 | the second scan restarts at index 1 of the buffer, not after the first 0xC0 | `01 05 C0 02 C0` scans to `05` | the payload after the first 0xC0, `02` | not executed | Slip.UnframeRestartsAtOne | Slip.DecodeSkipsNoise |
| kflash.js:297-298 | with no closing 0xC0, the last step reads one past the end and appends `undefined` | any buffer from index 1 on without 0xC0 or 0xDB, such as `C0 05` | an unterminated frame reported as an error | not executed | Slip.UnframeUnterminated | Slip.DecodeUnterminated |
| kflash.js:172 | the debug text is rebuilt from the empty `text`, not from the data after the two header bytes (the flash-mode parser at kflash.js:212 does the same) | the reply `D1 00 41` parses with text "" | the text "A" | not executed | Responses.ParseIspDropsDebugText | Responses.ParseDebugText |

The session model keeps the as-written scan and parsers, because they
decide what the flasher actually does. The corrected decoder and parser
stand beside them. `Slip.UnframeAgreesWithDecode` proves that the scan and
the decoder agree on payloads with no 0xC0 or 0xDB.
