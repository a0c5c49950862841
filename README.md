# openmv-netcam: serial framing and frame publication

A model in Dafny of the part of openmv-netcam that carries camera frames from
an OpenMV board to MJPEG viewers:

- the camera firmware's loop, which waits for the trigger keyword `snap` on
  its USB serial port and answers with a four-byte little-endian length
  followed by a JPEG image;
- the host's poll loop `get_snapshot`, which writes the keyword, reads the
  length header, reads the payload and overwrites the single shared frame
  cell `data[0]`, until any step raises;
- the chunk that `send_frames` builds for the multipart stream: the boundary
  delimiter line `--frame`, a `Content-Type: image/jpeg` header, a blank line,
  the current frame and CRLF (boundary syntax as in section 5.1.1 of RFC 2046).

Modules, one per component:

| file | module | models |
|---|---|---|
| wrappers.dfy | Wrappers | `Option` |
| bytes.dfy | Bytes | bytes as integers 0..255, ASCII encoding of keywords and header text |
| little_endian.dfy | LittleEndian | the `'<L'` format of `struct.unpack` and `ustruct.pack`, and the length-prefixed framing |
| serial.dfy | Serial | the host's serial port: pending input, transfer log, fault schedule; `read(n)` returns the next `min(n, remaining)` bytes |
| frame_channel.dfy | FrameChannel | the shared cell `data`, a class `FrameSlot` with one `frame` field |
| device_link.dfy | DeviceLink | `get_snapshot`: one iteration as a pure function, the whole loop as a function and as a method on `SerialPort` and `FrameSlot` |
| stream_publisher.dfy | StreamPublisher | the chunk of `send_frames`, its inverse, and the chunk loop |
| firmware.dfy | Firmware | the firmware loop on a `Usb` class with receive and send |
| end_to_end.dfy | EndToEnd | device and host together, including the `HELLO` example |

The serial port is a value `Port(rx, log, faults)`: `rx` is what the device
has sent and the host has not read, `log` records every completed write and
read in order, and `faults` is a schedule saying which of the coming
operations raise (a closed port, a disconnected device). A read that times
out is not an error in pyserial: it returns fewer bytes; the model expresses
this as a read of `min(n, |rx|)` bytes. The camera is a parameter: the image
the next snapshot yields (`Serve`) or the i-th snapshot of a session
(`camera(i)` in `Run`).

### Truncated frames

The length header announces N bytes, but `get_snapshot` never checks that N
bytes arrived: `dev.read(size)` returns whatever arrived before the timeout,
and the result is stored as the frame as it is (app.py:18). The model
follows the code. `DeviceLink.StoresTruncatedPayload` shows a header
announcing n bytes followed by fewer than n: the slot ends up holding the
short tail.

## Model

| member | source | states |
|---|---|---|
| `Bytes.Ascii` | app.py:16 | `keyword.encode()` for an ASCII keyword: one byte per character, holding its code, same length |
| `LittleEndian.DecodeLE32` | app.py:17 | `struct.unpack('<L', b)` is defined exactly when `b` has four bytes; its value is b0 + 256·b1 + 65536·b2 + 16777216·b3 and lies below 2^32 |
| `LittleEndian.EncodeLE32` | openmv/main.py:16 | `ustruct.pack("<L", n)` for n < 2^32 is four bytes that the host's decoder maps back to n |
| `LittleEndian.HeaderRoundTrip` | app.py:17 | every four-byte header is the encoding of the value it decodes to, so the two ends agree on all 2^32 headers |
| `LittleEndian.DecodeEncodeLE` | openmv/main.py:16 | for any width k and n < 256^k, decoding the k-byte little-endian encoding of n gives n |
| `LittleEndian.EncodeDecodeLE` | app.py:17 | every byte string is the little-endian encoding, at its own length, of its value |
| `LittleEndian.EncodeLE` | openmv/main.py:16 | the k-byte little-endian form of `ustruct.pack`, least significant byte first, is exactly k bytes long; `DecodeEncodeLE` proves it is undone by decoding |
| `LittleEndian.DecodeLE` | app.py:17 | the value of a k-byte little-endian string is below 256^k |
| `LittleEndian.Framed` | openmv/main.py:16-17 | a framed payload is 4 + size bytes, its first four decode to the size and the rest is the payload |
| `Serial.Port.Write` | app.py:16 | `dev.write` raises when the fault schedule says so; otherwise it logs the keyword bytes and consumes no input |
| `Serial.Port.Read` | app.py:17-18 | `dev.read(n)` raises when the schedule says so, leaving the input alone; otherwise it returns the next min(n, remaining) bytes and removes them from the input |
| `Serial.SerialPort.Write` | app.py:16 | the device handle's write updates the port exactly as `Port.Write` says |
| `Serial.SerialPort.Read` | app.py:17-18 | the device handle's read returns and updates exactly as `Port.Read` says |
| `FrameChannel.FrameSlot.constructor` | app.py:87 | the shared cell starts out holding the empty frame |
| `DeviceLink.PollStep` | app.py:15-18 | an iteration captures a frame exactly when the write and both reads do not raise and a full header arrives; the frame is the min(N, remaining) bytes after the header N, and the log is keyword write, header read, payload read |
| `DeviceLink.PollLoop` | app.py:14-20 | the whole loop: iterations repeat while each captures a frame, and a run whose first iteration stops ends in that iteration's port state with the slot unchanged |
| `DeviceLink.KeywordBeforeReads` | app.py:16-17 | each iteration's transfers are the keyword write followed only by reads; input is consumed only after the keyword went out, and only from the front |
| `DeviceLink.LoopConsumesInput` | app.py:14-18 | the loop as a whole only consumes input from the front and only appends to the log |
| `DeviceLink.GetSnapshot` | app.py:13-20 | the loop on the device handle and the slot leaves both exactly as the loop function `PollLoop` says |
| `DeviceLink.ReceivesFramed` | app.py:17-18 | a framed payload followed by anything is captured as exactly that payload, with exactly the rest left unread |
| `DeviceLink.StoresTruncatedPayload` | app.py:18 | a header announcing n bytes followed by fewer is still captured: the slot gets the short tail, fewer than n bytes |
| `DeviceLink.FailedIterationKeepsSlot` | app.py:16-20 | a raising write, header read or payload read, or a header shorter than four bytes, stops the loop and leaves the slot unchanged |
| `DeviceLink.EmptyInputStops` | app.py:16-20 | with nothing left to read, a fault-free iteration writes the keyword, reads an empty header and stops |
| `DeviceLink.LastWriteWins` | app.py:14-18 | over a fault-free run on several framed payloads the slot ends holding the last one (the old frame if there was none) and all input is consumed |
| `DeviceLink.RunTranscript` | app.py:14-18 | that run's transfers are, per payload, keyword write, header read and payload read, then one last keyword write with an empty header read |
| `DeviceLink.CapturesThenRest` | app.py:14-18 | k >= 1 iterations that do not raise, on input starting with k framed payloads, capture them in turn: the loop goes on from a state with exactly the remaining input, the k exchanges logged and the fault schedule moved on by 3k operations, holding the last payload |
| `DeviceLink.StaleFrameKept` | app.py:14-20 | after k >= 1 captures, an iteration that raises or finds fewer than four bytes left ends the loop and the slot keeps the k-th payload, whatever input or faults follow |
| `StreamPublisher.Chunk` | app.py:26 | a chunk is 39 bytes longer than its frame, opens with the 37-byte prefix and ends with CRLF |
| `StreamPublisher.Body` | app.py:26 | a byte string carries a frame exactly when it is at least 39 bytes, opens with the prefix and ends with CRLF; the frame is 39 bytes shorter |
| `StreamPublisher.BodyOfChunk` | app.py:26 | stripping the prefix and CRLF from a chunk gives back exactly its frame |
| `StreamPublisher.ChunkOfBody` | app.py:26 | every well-formed chunk is rebuilt exactly from the frame it carries |
| `StreamPublisher.ChunkOpensWithDelimiter` | app.py:26 | every chunk opens with the delimiter line `--frame` and CRLF |
| `StreamPublisher.SendFrames` | app.py:23-26 | the first count chunks of the stream are all built from the current slot, and each carries exactly the current frame |
| `StreamPublisher.FirstChunkBeforeCapture` | app.py:87 | a stream opened before any capture sends the prefix followed directly by CRLF |
| `Firmware.KeywordIsSnap` | openmv/main.py:4 | the keyword is the four bytes of `snap` |
| `Firmware.Usb.Recv` | openmv/main.py:13 | a receive returns the next min(n, pending) bytes and removes them from the pending input |
| `Firmware.Usb.Send` | openmv/main.py:16-17 | a send appends its bytes to everything sent before |
| `Firmware.Command` | openmv/main.py:13 | each receive asks for len(keyword) bytes and gets at most that many, from the front of the input |
| `Firmware.Response` | openmv/main.py:14-17 | the device answers only a command equal to the keyword; the answer is 4 + size bytes whose header decodes to the size, followed by the image |
| `Firmware.Serve` | openmv/main.py:13-17 | one iteration consumes one command and sends exactly the response to it |
| `Firmware.Output` | openmv/main.py:12-17 | the bytes the loop sends for its pending input: nothing at all when the input is shorter than the keyword |
| `Firmware.OutputStep` | openmv/main.py:13-17 | the loop-invariant step for `Run`: what the loop sends is the response to its first command followed by what it sends for the rest of the input |
| `Firmware.Run` | openmv/main.py:12-17 | the loop over all pending input sends the responses to its successive commands, taking a new snapshot for each match |
| `Firmware.AnswersEachKeyword` | openmv/main.py:12-17 | k back-to-back keywords are answered with the next k snapshots, each framed, in order |
| `EndToEnd.HostRecoversImage` | app.py:17-18 | the host's poll stores exactly the image the device sent in answer to the keyword |
| `EndToEnd.SessionKeepsLatest` | app.py:14-18 | after a session of k > 0 requests answered by the device, the host holds the k-th snapshot and has read everything the device sent |
| `EndToEnd.SessionTranscript` | app.py:14-18 | in that session the host sends the keyword k + 1 times and reads each header and image in turn, the last header read coming back empty |
| `EndToEnd.WrongKeywordGetsNothing` | openmv/main.py:14 | a host configured with another four-byte keyword gets no answer and keeps its frame |
| `EndToEnd.Unanswered` | openmv/main.py:13-14 | any number of back-to-back copies of another four-byte keyword, from any shot count, make the device send nothing |
| `EndToEnd.HelloHeader` | openmv/main.py:16 | the device's answer for `HELLO` opens with the header 05 00 00 00 |
| `EndToEnd.HelloPolled` | app.py:17-18 | polled on that answer, the host loop ends holding `HELLO` |
| `EndToEnd.HelloScenario` | app.py:13-26 | the device's answer to `snap` for `HELLO` has header 05 00 00 00; after polling the slot holds `HELLO` and the next chunk carries exactly `HELLO` |

## Left out

- The Flask application, route registration and the response mimetype (app.py:53-67): HTTP serving is done by a library.
- The background thread and the unsynchronised sharing of `data` between it and the HTTP handlers (app.py:88-89): the model is single-threaded, so every read of the slot sees a whole frame written by a complete poll iteration.
- The 50 ms sleep between chunks (app.py:25): timing, not logic.
- Signal handlers, `gracefully_exit` and `sys.exit` (app.py:29-31, app.py:46-50): process plumbing; a closed port is covered by the fault schedule.
- Command-line parsing and JSON configuration loading (app.py:34-43), and the wiring in `main` other than the slot's initial value (app.py:70-95): configuration I/O.
- The `serial.Serial` port parameters (app.py:77-82): hardware setup; only the timeout's effect, a short read, is kept.
- `DeviceLink.GetSnapshot` takes the keyword as bytes: `keyword.encode()` is modelled by `Bytes.Ascii` for ASCII keywords only; the UTF-8 encoding of other characters is not modelled.
- `Serial.Port.Write`: a write that raises is modelled as sending nothing; a partial write before the error is not modelled.
- `Serial.Port.Read`: a read that raises is modelled as consuming nothing; a read that takes some bytes and then raises is not modelled, so `DeviceLink.LoopConsumesInput`'s statement about the remaining input holds for the model's faults only. The slot is unaffected either way, since the loop returns on the error.
- Sensor setup, snapshot and JPEG compression (openmv/main.py:1-10, openmv/main.py:15): the image is a parameter, an arbitrary byte string shorter than 2^32 bytes.
- `Firmware.Response`: images of 2^32 bytes or more are not modelled, because `'<L'` cannot carry their size.
- Arrival timing on both links: the pending input is treated as already arrived, so a receive or read comes back short only when the input is used up, never because bytes were still in flight.
- Transport errors on the device's USB port and the receive timeout's wall-clock duration: the device side never raises.
- `Firmware.Run`: stops once the pending input is used up instead of looping forever; the further iterations of the real loop receive no bytes, which never match the keyword, and change nothing.
- `StreamPublisher.SendFrames`: models the first count chunks of the endless generator, not its lazy, unbounded production.
