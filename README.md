# Tribo-scanner batch automation, modelled in Dafny

The system drives a nano-indentation instrument (a Hysitron TriboScan)
over TCP. The controller, `AutomationHost`, waits for the instrument's
READY frame. It then walks a list of (x, y) target points. For each point
it sends MOVE_XY, SAMPLE_LOADED and METHOD_ID, and polls with
REQUEST_STATUS until the instrument reports OPERATION_COMPLETED (27) or
ERROR (12). After the last point it sends a final OPERATION_COMPLETED.
`TriboScannerSimulator` stands in for the instrument. It sends READY once,
then answers each frame it reads according to one counter, `busyCount`.
Both sides speak in `TriboMessage` frames: a 12-byte header of three
little-endian 32-bit integers (`readWrite`, `type`, `length`), followed by
`length` octets of UTF-8 text.

The model has these modules:

- `Bytes`: Java `int` as `int32`, 32-bit wrap-around, and little-endian
  `putInt`/`getInt`.
- `Utf8`: the UTF-8 transformation of section 3 of RFC 3629, used for
  `String.getBytes(UTF_8)` and for `new String(bytes, UTF_8)`. The decoder
  replaces each maximal ill-formed subpart with one U+FFFD, with two
  exceptions that follow the JDK's decoder: the three octets of an encoded
  surrogate (ED A0..BF 80..BF) are replaced as one unit, and so are ED A0..BF
  followed by any other octet or by the end of the input.
- `Buffers`: the part of `java.nio.ByteBuffer` the code uses (`allocate`,
  `wrap`, `putInt`, `put`, `getInt`, `get`, `flip`), as a class over an
  `array<byte>` with a cursor.
- `Streams`: `DataInputStream` over the bytes the peer will ever send (with
  `readFully` and `read`), and `DataOutputStream` as a log of writes.
- `Messages`: the frame as a datatype (`Frame`), its encoder and decoder,
  and the `TriboMessage` class. The class has its constructor, and
  `toBytes`/`fromBytes` written against a `ByteBuffer`.
- `Text`: Java's decimal text of an `int`, and `%.4f` for coordinates. A
  coordinate is held as an integer number of ten-thousandths.
- `Host`: the controller's workflow as functions of what the instrument
  says (`Talk`: the frames it sends and the fault that ends them). The
  `AutomationHost` class implements `startWorkflow`, `sendMessage`,
  `receiveMessage`, `moveXY`, `readResultData` and `saveSummaryToCSV` as
  methods over the streams. Each method is proved against those
  functions.
- `Traffic`: what `startWorkflow` sends. This covers the handshake gate,
  the per-point order, the number of status requests, the abort on ERROR,
  the final frame, and the summary rows.
- `Simulator`: the reply rules (`Respond`) and the dispatch loop
  (`Session`) over the bytes the controller sends. The
  `TriboScannerSimulator` class holds `busyCount` and carries out one pass
  of the loop per `Step`.
- `ClosedLoop`: the two sides connected. For any non-empty point list
  that can be loaded, the batch completes and every point takes exactly
  four status requests. The simulator's replies to the controller's frames
  are exactly the frames the controller read.

The model follows the code: a reply of an unexpected type is ignored at
every step where the code ignores it. This includes a polling reply other
than 4, 27 or 12, which keeps the loop going.

## Model

| member | source | states |
|---|---|---|
| Bytes.Wrap32 | src/AutomationHost.java:243 | `12 + len` as a Java `int`: congruent to the exact sum modulo 2^32, and equal to it when it is in range |
| Bytes.LittleEndian | src/TriboMessage.java:22-25 | the four bytes `putInt` writes, least significant first; `Bytes.ReadWritten` reads them back as `v`, `Bytes.LittleEndianInjective` keeps distinct values apart, `Bytes.LittleEndianDigits` gives their weighted sum |
| Bytes.FromLittleEndian | src/TriboMessage.java:32-35 | the `int` `getInt` reads from four bytes; `Bytes.WriteRead` and `Bytes.ReadWritten` make it the inverse of `LittleEndian` on every input |
| Bytes.ReadWritten | src/TriboMessage.java:22-35 | reading back the four little-endian bytes written for any 32-bit `v` gives `v` |
| Bytes.WriteRead | src/TriboMessage.java:32-35 | any four bytes are the little-endian encoding of the `int` read from them |
| Bytes.LittleEndianInjective | src/TriboMessage.java:23-25 | distinct `int`s are written as distinct byte groups |
| Bytes.LittleEndianDigits | src/TriboMessage.java:23-25 | the weighted sum of the four bytes is the unsigned value of `v` |
| Utf8.Encode | src/TriboMessage.java:15-20 | `getBytes(UTF_8)` character by character; `Utf8.EncodeChar`, `Utf8.EncodeAppend`, `Utf8.EncodeLength` and `Utf8.EncodeAscii` state its octets, and `Utf8.DecodeEncode` its inverse |
| Utf8.EncodeChar | src/TriboMessage.java:20 | one scalar value takes its RFC 3629 width of one to four octets, and every octet after the first is a continuation octet |
| Utf8.EncodeAppend | src/TriboMessage.java:20 | the encoding of `s + t` is the encoding of `s` followed by that of `t` |
| Utf8.EncodeLength | src/TriboMessage.java:15 | the octet count of a text lies between its length and four times its length |
| Utf8.EncodeAscii | src/TriboMessage.java:15 | a text of code points below 0x80 encodes to those code points, one octet each |
| Utf8.DecodeOne | src/TriboMessage.java:38 | one decoding step uses one to four octets; an ill-formed step yields U+FFFD, and a well-formed one uses the length its lead octet announces |
| Utf8.Decode | src/TriboMessage.java:38 | decoding never yields more characters than there are octets |
| Utf8.DecodeEncode | src/TriboMessage.java:38 | decoding the octets of any text gives the text back, and those octets are well-formed |
| Utf8.WellFormedRoundTrip | src/TriboMessage.java:38 | re-encoding the decoding of well-formed octets reproduces them |
| Utf8.EncodeDecode | src/TriboMessage.java:38 | re-encoding a decoded payload gives the payload back if and only if it is well-formed |
| Utf8.InvalidByteIsReplaced | src/TriboMessage.java:38 | any octet that cannot start a sequence (a continuation octet, C0, C1, F5..FF) decodes to one U+FFFD, which re-encodes to three octets, and decoding goes on after it |
| Utf8.SurrogateIsReplaced | src/TriboMessage.java:38 | the three octets of an encoded surrogate decode to one U+FFFD, and decoding goes on after them |
| Buffers.ByteBuffer.Allocate | src/TriboMessage.java:21 | a fresh zero-filled buffer of the given capacity, with the cursor at 0 and the limit at the capacity |
| Buffers.ByteBuffer.Wrap | src/AutomationHost.java:234 | a buffer over the given array, with the cursor at 0 |
| Buffers.ByteBuffer.PutInt | src/TriboMessage.java:23-25 | writes the four little-endian bytes at the cursor and advances it when they fit; otherwise overflow and nothing changes |
| Buffers.ByteBuffer.Put | src/TriboMessage.java:26 | copies the bytes at the cursor and advances it when they fit; otherwise overflow and nothing changes |
| Buffers.ByteBuffer.GetInt | src/TriboMessage.java:33-35 | reads four little-endian bytes at the cursor and advances it; underflow when fewer remain |
| Buffers.ByteBuffer.Get | src/TriboMessage.java:36-37 | reads `n` bytes at the cursor and advances it; underflow when fewer remain |
| Buffers.ByteBuffer.Flip | src/AutomationHost.java:246 | the limit becomes the cursor and the cursor becomes 0 |
| Streams.DataInputStream.constructor | src/AutomationHost.java:17 | a stream over everything the peer will send, with nothing read yet |
| Streams.DataInputStream.ReadFully | src/AutomationHost.java:233 | returns exactly the next `n` bytes, or end-of-stream when fewer remain (and those are consumed) |
| Streams.DataInputStream.Read | src/TriboScannerSimulator.java:26 | returns -1 at the end of input; otherwise fills the front of the buffer with what is available, up to its size, and reports the count |
| Streams.Chunk | src/TriboScannerSimulator.java:26 | the count `read` takes: the smaller of the room and what is left |
| Streams.ConcatAppend | src/AutomationHost.java:227 | one more write appends its bytes to the stream's contents |
| Streams.DataOutputStream.constructor | src/AutomationHost.java:16 | nothing written yet |
| Streams.DataOutputStream.Write | src/AutomationHost.java:227 | the bytes are appended to what was written |
| Messages.Make | src/TriboMessage.java:11-16 | a new message has `readWrite` 1, the given type and text, and `length` equal to the UTF-8 octet count of the text |
| Messages.TriboMessage.constructor | src/TriboMessage.java:11-16 | the object's fields are those of `Make(type, message)` |
| Messages.Encode | src/TriboMessage.java:19-28 | the bytes of a frame number exactly 12 plus the payload's octet count |
| Messages.EncodeLayout | src/TriboMessage.java:22-26 | bytes 0-3, 4-7 and 8-11 read back as `readWrite`, `type` and `length`, and the payload octets follow unchanged |
| Messages.Decode | src/TriboMessage.java:30-43 | what `fromBytes` makes of the remaining bytes, with the fault it raises; `Messages.DecodeEncode`, `Messages.DecodeConsumes` and `Messages.DecodedFields` state its round trip, its consumption and its fields |
| Messages.TriboMessage.ToBytes | src/TriboMessage.java:19-28 | returns a fresh array holding exactly the encoding of the object's fields |
| Messages.DecodeEncode | src/TriboMessage.java:19-43 | decoding the bytes of a consistent frame, whatever follows them, gives back the same frame (its `readWrite` included) and consumes exactly its bytes |
| Messages.DecodeConsumes | src/TriboMessage.java:35-37 | a successful decode consumes exactly 12 + `len` bytes; with fewer than `len` payload bytes it fails with underflow; bytes after the frame do not matter |
| Messages.DecodedFields | src/TriboMessage.java:33-41 | a decoded message keeps the header's `readWrite` and `type`; its `length` is its text's octet count, and equals the header's `len` when the payload is well-formed UTF-8; the payload re-encodes to itself exactly when it is well-formed |
| Messages.TriboMessage.ReadHeader | src/TriboMessage.java:33-35 | the three `getInt` calls return the header's `readWrite`, `type` and `len` and advance the cursor by 12, or underflow when fewer than 12 bytes remain |
| Messages.TriboMessage.FromBytes | src/TriboMessage.java:31-43 | succeeds exactly when `Decode` does on the remaining bytes; it then yields a fresh message with the decoded fields and advances the cursor by the bytes consumed, and otherwise raises `Decode`'s fault |
| Messages.EncodeAllAppend | src/AutomationHost.java:227 | the bytes of two runs of frames are the bytes of each run, in order |
| Host.ShortSendable | src/AutomationHost.java:226 | a text of at most 2^28 characters can be framed |
| Host.FrameSize | src/AutomationHost.java:232-241 | when both `readFully` calls succeed, the frame takes 12 + `len` bytes, and all of them are in the input |
| Host.Receive | src/AutomationHost.java:231-249 | a frame received consumes at least the header, and no more than the input holds |
| Host.ReceiveIsDecode | src/AutomationHost.java:243-248 | `receiveMessage` yields what `fromBytes` yields on the same bytes. A short input becomes end-of-stream, and a negative length fails both in the same way |
| Host.ReceiveEncoded | src/AutomationHost.java:231-249 | a frame sent whole is received whole, whatever follows it, and the rest is left unread |
| Host.MethodNameSendable | src/AutomationHost.java:74 | the METHOD_ID text for any index in range can be framed |
| Host.MethodName | src/AutomationHost.java:74 | `"Batch_Test_Point_"` and the decimal text of `i + 1`; `Host.MethodNameSendable` says it can be framed, and `Text.DecimalStringInjective` that distinct points get distinct names |
| Host.MoveFrame | src/AutomationHost.java:115-120 | MOVE_XY carries the `"X:Y"` text of the point |
| Host.SampleFrame | src/AutomationHost.java:69 | SAMPLE_LOADED carries "Sample In Position" |
| Host.MethodFrame | src/AutomationHost.java:74-75 | METHOD_ID carries "Batch_Test_Point_" followed by `i + 1` |
| Host.StatusFrame | src/AutomationHost.java:84 | REQUEST_STATUS carries "Query Status" |
| Host.FinalFrame | src/AutomationHost.java:108 | the closing OPERATION_COMPLETED carries "All Batch Jobs Completed" |
| Host.Requests | src/AutomationHost.java:81-84 | `n` rounds send `n` status requests and nothing else |
| Host.ReadNext | src/AutomationHost.java:231-249 | one `receiveMessage` at an offset yields the first frame of the conversation held there, and the rest follows after it |
| Host.ParseShift | src/AutomationHost.java:231-249 | bytes before the read position do not change what is read |
| Host.ParseOne | src/AutomationHost.java:231-249 | a frame sent whole is read back first, then what follows it |
| Host.ParseEncoded | src/AutomationHost.java:231-249 | frames sent whole one after another are read back one by one, in order |
| Host.PollRound | src/AutomationHost.java:84-101 | a round that does not stop the loop consumes a reply |
| Host.Poll | src/AutomationHost.java:78-102 | the status loop, round after round until one stops it; `Traffic.PollStops`, `Traffic.PollRunsOut` and `Traffic.PollConsumes` state how many requests it sends and what it leaves |
| Host.Dispatch | src/AutomationHost.java:73-102 | METHOD_ID then the status loop; `Traffic.DispatchOrder` states the frames and the replies read |
| Host.RunPoint | src/AutomationHost.java:58-102 | one point: MOVE_XY, a reply, SAMPLE_LOADED, a reply, then `Dispatch`; `Traffic.PointOrder`, `Traffic.DispatchedOrder` and `Traffic.PointMoves` state its sends and reads on every path |
| Host.Visits | src/AutomationHost.java:49-103 | the point loop from index `i`, which has begun the batch; `Traffic.VisitsShape`, `Traffic.VisitsMoves` and `Traffic.Entries` state the completed prefix, the moves and the rows |
| Host.Visit | src/AutomationHost.java:49-103 | one pass of the point loop, which moves on only when the point completes; `Host.BatchStepDone` and `Host.BatchStepStop` state both cases |
| Host.Batch | src/AutomationHost.java:48-108 | the point loop and, when it completes, the final 27; `Traffic.BatchEnd` and `Traffic.ErrorEnd` state both ends |
| Host.Workflow | src/AutomationHost.java:24-111 | `startWorkflow` as a function of what the instrument says; `Traffic.StartGate`, `Traffic.BatchEnd` and `Traffic.ErrorEnd` state its gate and its ends |
| Host.BatchStepDone | src/AutomationHost.java:49-103 | a point that completes moves the point loop on to the next index with its frames and its summary row |
| Host.BatchStepStop | src/AutomationHost.java:97-101 | a point that aborts or fails ends the point loop there |
| Host.ConcatEncoded | src/AutomationHost.java:225-229 | writes that each hold one frame's encoding make the encoding of all the frames |
| Host.HeaderLength | src/AutomationHost.java:234-238 | the third `getInt` of the wrapped header is the header's `len` |
| Host.Assemble | src/AutomationHost.java:243-246 | after `allocate`, two `put`s and `flip`, the buffer's remaining bytes are the header followed by the body |
| Host.AutomationHost.WireBytes | src/AutomationHost.java:225-229 | the bytes on the wire are the frames sent, encoded one after another |
| Host.AutomationHost.Connect | src/AutomationHost.java:14-19 | fresh streams; nothing sent, read or recorded; the conversation ahead is everything the instrument will send |
| Host.AutomationHost.SendMessage | src/AutomationHost.java:225-229 | appends `Make(type, content)` to the frames sent, and its bytes to the stream |
| Host.AutomationHost.ReadFrame | src/AutomationHost.java:232-241 | both `readFully` calls succeed exactly when `FrameSize` does; they take exactly the frame's bytes, and otherwise raise its fault |
| Host.AutomationHost.ReadMessage | src/AutomationHost.java:231-249 | yields exactly what `Receive` yields on the unread bytes, and consumes what it consumes |
| Host.AutomationHost.ReceiveMessage | src/AutomationHost.java:231-249 | yields the next frame the instrument sent and moves past it; when none is left it raises the fault that ended the input |
| Host.AutomationHost.MoveXY | src/AutomationHost.java:115-120 | sends exactly one MOVE_XY to the point |
| Host.AutomationHost.ReadResultData | src/AutomationHost.java:155-198 | appends one row with the point's x and y when a result file exists, and nothing otherwise |
| Host.AutomationHost.SaveSummaryToCsv | src/AutomationHost.java:203-223 | writes out the current summary |
| Host.AutomationHost.StatusRound | src/AutomationHost.java:81-101 | sends exactly one status request and reads one reply, ending as `PollRound` says; on 27 it records the point's row |
| Host.AutomationHost.PollPoint | src/AutomationHost.java:80-102 | sends the status requests `Poll` counts, ends as it says, and records a row only when the point is done |
| Host.AutomationHost.DispatchPoint | src/AutomationHost.java:73-102 | sends METHOD_ID and then polls, as `Dispatch` describes |
| Host.AutomationHost.VisitPoint | src/AutomationHost.java:58-102 | steps A to D of one point, as `RunPoint` describes |
| Host.AutomationHost.VisitPoints | src/AutomationHost.java:49-103 | the point loop, as `Visits` describes: outcome, frames sent, and rows added |
| Host.AutomationHost.RunBatch | src/AutomationHost.java:48-110 | clears the summary, runs the point loop and the final frame as `Batch` describes, and writes the summary only when the batch completes |
| Host.AutomationHost.StartWorkflow | src/AutomationHost.java:24-111 | `startWorkflow` as `Workflow` describes: its outcome, the frames sent, the summary, the reports written and the input left |
| Text.DecimalStringValue | src/AutomationHost.java:74 | the decimal text of `n` is all digits, reads back as `n`, and starts with '0' only for 0 |
| Text.DecimalString | src/AutomationHost.java:74 | Java's decimal text of a non-negative `int`, never empty; `Text.DecimalStringValue`, `Text.DecimalStringLength` and `Text.DecimalStringInjective` state its digits, value, length and injectivity |
| Text.DecimalStringLength | src/AutomationHost.java:74 | a number below 10^k takes at most k digits |
| Text.DecimalStringInjective | src/AutomationHost.java:74 | distinct point indices give distinct method names |
| Text.FourDigitsValue | src/AutomationHost.java:117 | the four fractional digits read back as the fraction |
| Text.Fixed4 | src/AutomationHost.java:117 | `%.4f` of a fixed-point value; `Text.Fixed4RoundTrip` and `Text.Fixed4Marks` state its shape, the value it reads back as, and the marks it holds |
| Text.Fixed4RoundTrip | src/AutomationHost.java:117 | every `%.4f` rendering has the sign, digits, '.', four digits shape, and reads back as the value it was made from |
| Text.Fixed4Marks | src/AutomationHost.java:117 | a rendered coordinate holds exactly one '.' and no ':' |
| Text.CoordinatesShape | src/AutomationHost.java:117 | the MOVE_XY text holds exactly one ':', with a rendered coordinate on each side of it |
| Text.Coordinates | src/AutomationHost.java:117 | `%.4f:%.4f` of a point; `Text.CoordinatesShape` states its shape |
| Traffic.PollStops | src/AutomationHost.java:81-101 | when the first 27 or 12 among the polling replies is at index N, exactly N + 1 status requests are sent; the loop ends on that reply and leaves the rest unread |
| Traffic.PollRunsOut | src/AutomationHost.java:80-102 | when no reply stops the loop, every reply is answered with another request, and the read after the last fails with the input's fault |
| Traffic.PollConsumes | src/AutomationHost.java:84-85 | each status request reads exactly one reply |
| Traffic.DispatchOrder | src/AutomationHost.java:73-102 | METHOD_ID is sent first and only status requests after it, one per reply read |
| Traffic.PointOrder | src/AutomationHost.java:58-102 | a point sends MOVE_XY first and reads one reply of any type before SAMPLE_LOADED, and one more before METHOD_ID ("Batch_Test_Point_" and `i + 1`); then only status requests follow, one reply each. With no reply only MOVE_XY is sent, with one reply MOVE_XY and SAMPLE_LOADED |
| Traffic.DispatchedOrder | src/AutomationHost.java:59-75 | after one reply of any type SAMPLE_LOADED follows MOVE_XY, and after one more METHOD_ID follows |
| Traffic.Entries | src/AutomationHost.java:94 | the points from `i` to `j` add at most one row each |
| Traffic.MovesFor | src/AutomationHost.java:59 | one MOVE_XY per point in the range |
| Traffic.PointMoves | src/AutomationHost.java:58-102 | a point sends exactly one MOVE_XY, and only point-loop frames |
| Traffic.VisitsShape | src/AutomationHost.java:49-103 | the point loop completes a prefix of the points; it completes the batch exactly when that prefix is all of them, and keeps those points' rows in visit order |
| Traffic.VisitsMoves | src/AutomationHost.java:49-103 | the point loop sends MOVE_XY to each point it reaches, in order, and no other MOVE_XY |
| Traffic.StartGate | src/AutomationHost.java:28-43 | the batch starts exactly when the first frame is READY and the list is not empty; otherwise nothing is sent and no row is kept |
| Traffic.BatchEnd | src/AutomationHost.java:49-110 | a completed batch moved to every point in order and kept every point's row; its last frame is the final 27, and no 27 comes before it |
| Traffic.ErrorEnd | src/AutomationHost.java:97-101 | on ERROR no MOVE_XY is sent after the current point and no 27 at all; only the completed points' rows are kept |
| Simulator.ReadyFrame | src/TriboScannerSimulator.java:18 | READY carries "Triboscan in Loading Position", 29 octets |
| Simulator.ApproachFrame | src/TriboScannerSimulator.java:38 | APPROACH_STATUS carries "Quick approach started", 22 octets |
| Simulator.BusyFrame | src/TriboScannerSimulator.java:48 | BUSY carries "TS_BUSY: Indenting...", 21 octets |
| Simulator.DoneFrame | src/TriboScannerSimulator.java:54 | OPERATION_COMPLETED carries "All operations completed", 24 octets |
| Simulator.MovingFrame | src/TriboScannerSimulator.java:64 | JOB_EXEC_STATUS carries "TS_JOB_EXEC_STATUS: Moving Stages...", 36 octets |
| Simulator.Replies | src/TriboScannerSimulator.java:37-69 | a frame gets at most one reply |
| Simulator.Respond | src/TriboScannerSimulator.java:37-69 | a reply comes exactly for types 2, 10 and 11: 2 gets APPROACH_STATUS and 10 gets JOB_EXEC_STATUS, both leaving the count. Type 5 resets the count, and only 5 and 11 change it. On 11 the count below 3 gives BUSY and an increment, and otherwise 27 and a reset. The count stays within 0..3 |
| Simulator.Exchange | src/TriboScannerSimulator.java:26-34 | one pass of the loop consumes input and answers at most one frame |
| Simulator.Session | src/TriboScannerSimulator.java:23-70 | the dispatch loop over everything the controller sends; `Simulator.SessionBounds` bounds its count and replies, and `Simulator.SessionFrames` states its answers to whole frames |
| Simulator.SessionBounds | src/TriboScannerSimulator.java:23-69 | whatever arrives, `busyCount` stays within 0..3, and no frame gets more than one reply |
| Simulator.Countdown | src/TriboScannerSimulator.java:45-57 | from a count `b` within 0..3, the next 4 - b status requests get BUSY until the last, which gets 27 and resets the count |
| Simulator.StatusCycle | src/TriboScannerSimulator.java:40-57 | after a METHOD_ID the next three status requests get BUSY and the fourth gets 27 |
| Simulator.ReactAppend | src/TriboScannerSimulator.java:26-70 | the replies to two runs of frames are the replies to each, the second starting from the count the first left |
| Simulator.ExchangeOne | src/TriboScannerSimulator.java:26-69 | a frame sent whole is answered by `Respond` and the loop goes on after its bytes |
| Simulator.SessionFrames | src/TriboScannerSimulator.java:26-70 | on the bytes of whole frames the loop answers frame by frame, as `Respond` says, and ends when the connection closes |
| Simulator.TriboScannerSimulator.Accept | src/TriboScannerSimulator.java:11-15 | fresh streams; count 0; nothing sent |
| Simulator.TriboScannerSimulator.Send | src/TriboScannerSimulator.java:19 | appends the frame to the replies sent, and its bytes to the stream |
| Simulator.TriboScannerSimulator.Fields | src/TriboScannerSimulator.java:27-30 | the second and third `getInt` of the header are its type and `len` |
| Simulator.TriboScannerSimulator.Dispatch | src/TriboScannerSimulator.java:37-69 | sends the reply `Respond` gives, if any, and sets the count it gives |
| Simulator.TriboScannerSimulator.Step | src/TriboScannerSimulator.java:26-69 | one pass of the loop, as `Exchange` describes: a stop leaves replies and count as they were |
| Simulator.TriboScannerSimulator.Serve | src/TriboScannerSimulator.java:18-70 | sends READY before reading anything, then answers everything the controller sent as `Session` describes |
| ClosedLoop.PollAnswered | src/AutomationHost.java:80-102 | N BUSY replies and then 27 end the point after exactly N + 1 status requests |
| ClosedLoop.RunPointAnswered | src/AutomationHost.java:58-102 | met with the simulator's answers, a point sends MOVE_XY, SAMPLE_LOADED, METHOD_ID and exactly four status requests, then completes |
| ClosedLoop.VisitsAnswered | src/AutomationHost.java:49-103 | met with the simulator's answers, the point loop completes every point and keeps every row |
| ClosedLoop.HostAnswered | src/AutomationHost.java:24-111 | after READY and the simulator's answers, the batch completes, and the final 27 is the last frame sent |
| ClosedLoop.PointReact | src/TriboScannerSimulator.java:37-69 | a point's seven frames are answered with JOB_EXEC_STATUS, APPROACH_STATUS, three BUSY and 27, leaving the count at 0 |
| ClosedLoop.BatchReact | src/TriboScannerSimulator.java:26-70 | the simulator answers a batch's frames with each point's answers, in order |
| ClosedLoop.ThenFinal | src/TriboScannerSimulator.java:37-69 | the controller's final 27 gets no reply and leaves the count unchanged |
| ClosedLoop.SimulatorAnswered | src/TriboScannerSimulator.java:18-70 | on the controller's bytes the simulator gives exactly the answers the controller read, and then sees the connection close |
| ClosedLoop.WholeExchange | src/AutomationHost.java:24-111 | the two sides connected: the batch completes over every point; the controller sends each point's seven frames and the final 27, and keeps every row; what the simulator sends back is exactly what the controller read |

## Left out

- Sockets: `connect`'s `Socket`, the server socket, `accept` and `flush`. The controller's input is the byte sequence the instrument will ever send, given to `Connect`. The simulator's input is what the controller will ever send, given to `Accept`. Output is a log of writes.
- `Thread.sleep` (src/AutomationHost.java:65, 82; src/TriboScannerSimulator.java:67): timing only.
- `loadPointsFromFile` and its `Double.parseDouble`. The point list is a parameter of `StartWorkflow`, with coordinates as whole ten-thousandths. `Loadable` bounds the list size and the text lengths so that every frame fits a Java array.
- The result-file parsing and `file.delete()` in `readResultData`. Whether a file exists for a point, and what it holds, is a parameter (`files`). The hardness and modulus values are carried through as `real`.
- The `PrintWriter` output of `saveSummaryToCSV` and `TestResult.toCSVString`. The model records each summary it would write, in `reports`.
- `createMockResultFile` and its `Math.random` (src/TriboScannerSimulator.java:75-95): the simulator's file side effect is not modelled.
- `System.out.println`, and the simulator's `new String(msgBody)` with the platform charset: these are only displayed.
- src/Main.java (console mode selection) and src/TestResult.java (a data holder, modelled as the `TestResult` datatype).
- Floating point. `%.4f` is modelled on fixed-point integers, so the rounding of doubles does not arise.
- Text.Fixed4: `String.format` uses the default locale; the model assumes one that writes '.' as the decimal separator and ASCII digits (a locale such as de_DE writes ',').
- Java's charset library. The model's decoder is written from the replacement rule stated above: each maximal ill-formed subpart becomes one U+FFFD, except that ED A0..BF followed by a continuation octet is one unit of three octets, and ED A0..BF followed by anything else, or by the end of the input, is one unit of two. It is not derived from the JDK's code, and any other way the JDK's decoder groups ill-formed octets is not modelled. Lone surrogates in a `String` do not arise, because a Dafny `string` holds scalar values only.
- Messages.TriboMessage.ToBytes: requires the frame to fit a Java array (`12 +` the payload's octet count at most 2^31 - 1), so the exception `allocate` would throw on a larger one is not modelled. Every caller meets it: the texts the controller and the simulator send are `Sendable` (`Host.ShortSendable`, `Host.MethodNameSendable`, and the fixed reply texts).
- Streams.DataInputStream.Read: a partial `read` is not modelled. The model's `read` takes everything available, up to the buffer size, as if all the peer's bytes had already arrived.
- Host.AutomationHost.ReceiveMessage: after a read has thrown, later reads are not modelled as bytes. The workflow returns at that point anyway.
- Host.AutomationHost.StartWorkflow: on a transport fault the contract does not state the input left over. The exception ends the run, and nothing reads the input again.
- Concurrency: the two programs are modelled one after the other, not interleaved. `ClosedLoop` relates what one writes to what the other reads.
