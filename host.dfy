/** `AutomationHost`: the controller. It frames messages onto the
    connection (`sendMessage`), reads whole frames back (`receiveMessage`)
    and runs the batch workflow (`startWorkflow`): handshake, then for every
    target point MOVE_XY, SAMPLE_LOADED, METHOD_ID and status polling, and
    finally a batch-level OPERATION_COMPLETED. */
module Host {
  import opened Bytes
  import opened Wrappers
  import opened Buffers
  import opened Streams
  import opened Messages
  import opened Catalog
  import opened Seqs
  import Utf8
  import Text

  /** A target position, in fixed point: whole ten-thousandths of a unit. */
  datatype Point = Point(x: int, y: int)

  /** What `readResultData` takes from a result file. */
  datatype Measurement = Measurement(testName: string, hardness: real, modulus: real)

  /** One row of the summary: a `TestResult`. */
  datatype TestResult = TestResult(testName: string, x: int, y: int, hardness: real, modulus: real)

  // ----------------------------------------------------------------------
  // Framing on the connection
  // ----------------------------------------------------------------------

  /** A text `sendMessage` can frame: header and payload fit a Java array. */
  predicate Sendable(s: string) {
    HeaderSize + |Utf8.Encode(s)| <= MaxInt32
  }

  lemma ShortSendable(s: string)
    requires |s| <= 0x1000_0000
    ensures Sendable(s) && Encodable(s)
  {
    Utf8.EncodeLength(s);
  }

  /** The two `readFully` calls of `receiveMessage` on the unread input:
      the number of bytes the frame takes, the header's 12 and its `len`,
      or the exception raised before they are all there. */
  function FrameSize(input: seq<byte>): (r: Result<nat, Fault>)
    ensures r.Ok? ==> |input| >= HeaderSize && HeaderSize <= r.value <= |input|
                      && r.value == HeaderSize + FromLittleEndian(input[8..12])
  {
    if |input| < HeaderSize then Err(EndOfStream)
    else
      var len := FromLittleEndian(input[8..12]);
      if len < 0 then Err(NegativeArraySize)
      else if |input| - HeaderSize < len then Err(EndOfStream)
      else Ok(HeaderSize + len)
  }

  /** What `receiveMessage` makes of the unread input: the frame read and
      the number of bytes consumed, or the exception raised. */
  function Receive(input: seq<byte>): (r: Result<(Frame, nat), Fault>)
    ensures r.Ok? ==> HeaderSize <= r.value.1 <= |input|
  {
    match FrameSize(input)
    case Err(e) => Err(e)
    case Ok(n) =>
      if Wrap32(n) < 0 then Err(IllegalCapacity)
      else
        DecodeConsumes(input);
        Decode(input)
  }

  /** `receiveMessage` yields what `fromBytes` yields on the same input
      whenever the buffer can be allocated; where `fromBytes` would run
      out of bytes, `readFully` has already thrown at end of stream. */
  lemma ReceiveIsDecode(input: seq<byte>)
    ensures Receive(input).Ok? ==> Receive(input) == Decode(input)
    ensures Decode(input).Ok? && Wrap32(Decode(input).value.1) >= 0 ==> Receive(input) == Decode(input)
    ensures Decode(input) == Err(BufferUnderflow) ==> Receive(input) == Err(EndOfStream)
    ensures Decode(input) == Err(NegativeArraySize) <==> Receive(input) == Err(NegativeArraySize)
  {
    if |input| >= HeaderSize {
      DecodeConsumes(input);
    }
  }

  /** A frame sent whole is received whole, whatever follows it. */
  lemma ReceiveEncoded(f: Frame, rest: seq<byte>)
    requires Deliverable(f)
    ensures Receive(Encode(f) + rest) == Ok((f, |Encode(f)|))
    ensures (Encode(f) + rest)[|Encode(f)|..] == rest
  {
    var e := Encode(f);
    var b := e + rest;
    EncodeLayout(f);
    assert b[8..12] == e[8..12];
    assert b[..HeaderSize + f.length] == e + [];
    DecodeEncode(f, []);
  }

  // ----------------------------------------------------------------------
  // The frames the controller sends
  // ----------------------------------------------------------------------

  /** The payload of METHOD_ID for the point at index `i`. */
  function MethodName(i: nat): string {
    "Batch_Test_Point_" + Text.DecimalString(i + 1)
  }

  lemma MethodNameSendable(i: nat)
    requires i < MaxInt32
    ensures Sendable(MethodName(i))
  {
    assert Text.Pow10(10) == 10_000_000_000;
    Text.DecimalStringLength(i + 1, 10);
    ShortSendable(MethodName(i));
  }

  /** Every point's MOVE_XY text can be framed, and the list size is a
      Java `int`: what a list loaded from the points file always meets. */
  predicate Loadable(points: seq<Point>) {
    |points| <= MaxInt32
    && forall k :: 0 <= k < |points| ==> Sendable(Text.Coordinates(points[k].x, points[k].y))
  }

  function MoveFrame(p: Point): (f: Frame)
    requires Sendable(Text.Coordinates(p.x, p.y))
    ensures f.readWrite == 1 && f.typeId == MOVE_XY && f.message == Text.Coordinates(p.x, p.y)
    ensures Consistent(f) && Sendable(f.message)
  {
    Make(MOVE_XY, Text.Coordinates(p.x, p.y))
  }

  function SampleFrame(): (f: Frame)
    ensures f.readWrite == 1 && f.typeId == SAMPLE_LOADED && f.message == "Sample In Position"
    ensures Consistent(f) && Sendable(f.message)
  {
    Utf8.EncodeAscii("Sample In Position");
    Frame(1, SAMPLE_LOADED, 18, "Sample In Position")
  }

  function MethodFrame(i: nat): (f: Frame)
    requires i < MaxInt32
    ensures f.readWrite == 1 && f.typeId == METHOD_ID && f.message == MethodName(i)
    ensures Consistent(f) && Sendable(f.message)
  {
    MethodNameSendable(i);
    Make(METHOD_ID, MethodName(i))
  }

  function StatusFrame(): (f: Frame)
    ensures f.readWrite == 1 && f.typeId == REQUEST_STATUS && f.message == "Query Status"
    ensures Consistent(f) && Sendable(f.message)
  {
    Utf8.EncodeAscii("Query Status");
    Frame(1, REQUEST_STATUS, 12, "Query Status")
  }

  function FinalFrame(): (f: Frame)
    ensures f.readWrite == 1 && f.typeId == OPERATION_COMPLETED && f.message == "All Batch Jobs Completed"
    ensures Consistent(f) && Sendable(f.message)
  {
    Utf8.EncodeAscii("All Batch Jobs Completed");
    Frame(1, OPERATION_COMPLETED, 24, "All Batch Jobs Completed")
  }

  /** `n` status requests. */
  function Requests(n: nat): (r: seq<Frame>)
    ensures |r| == n && forall k :: 0 <= k < n ==> r[k] == StatusFrame()
  {
    if n == 0 then [] else Requests(n - 1) + [StatusFrame()]
  }

  // ----------------------------------------------------------------------
  // What the instrument says
  // ----------------------------------------------------------------------

  /** The instrument's side of the conversation as the controller reads it:
      the frames it sends, in order, and the exception the read after the
      last of them raises. */
  datatype Talk = Talk(replies: seq<Frame>, end: Fault)

  /** The conversation `input` holds from offset `pos` on: with less than
      a header left the read throws at end of stream, otherwise a frame is
      read. */
  function ParseFrom(input: seq<byte>, pos: nat): Talk
    requires pos <= |input|
    decreases |input| - pos, 1
  {
    if |input| - pos < HeaderSize then Talk([], EndOfStream) else ParseFrame(input, pos)
  }

  /** The frame whose header begins at `pos`, then the rest of `input`. */
  function ParseFrame(input: seq<byte>, pos: nat): Talk
    requires pos + HeaderSize <= |input|
    decreases |input| - pos, 0
  {
    match Receive(input[pos..])
    case Err(e) => Talk([], e)
    case Ok((f, n)) => Heard(f, ParseFrom(input, pos + n))
  }

  /** The instrument's side of the conversation held in `input`:
      `receiveMessage` repeated until it throws. */
  function Conversation(input: seq<byte>): Talk {
    ParseFrom(input, 0)
  }

  /** One `receiveMessage` at offset `pos`: a frame read whole is the first
      reply and the rest of the conversation follows its bytes; a failing
      read ends the conversation with its exception. */
  lemma ReadNext(input: seq<byte>, pos: nat)
    requires pos <= |input|
    ensures match Receive(input[pos..])
            case Err(e) => ParseFrom(input, pos) == Talk([], e)
            case Ok((f, n)) => pos + n <= |input| && ParseFrom(input, pos) == Heard(f, ParseFrom(input, pos + n))
  {
    if |input| - pos >= HeaderSize {
      assert ParseFrom(input, pos) == ParseFrame(input, pos);
    }
  }

  /** Bytes in front of the part being read do not change what is read. */
  lemma {:induction false} ParseShift(p: seq<byte>, r: seq<byte>, q: nat)
    requires q <= |r|
    ensures ParseFrom(p + r, |p| + q) == ParseFrom(r, q)
    decreases |r| - q
  {
    var b := p + r;
    assert b[|p| + q..] == r[q..];
    if |r| - q >= HeaderSize {
      assert ParseFrom(b, |p| + q) == ParseFrame(b, |p| + q);
      assert ParseFrom(r, q) == ParseFrame(r, q);
      var x := Receive(r[q..]);
      if x.Ok? {
        ParseShift(p, r, q + x.value.1);
      }
    }
  }

  /** A frame sent whole is read back first, and then what follows it. */
  lemma ParseOne(f: Frame, rest: seq<byte>)
    requires Deliverable(f)
    ensures Conversation(Encode(f) + rest) == Heard(f, Conversation(rest))
  {
    var e := Encode(f);
    ReceiveEncoded(f, rest);
    assert (e + rest)[0..] == e + rest;
    assert ParseFrom(e + rest, 0) == ParseFrame(e + rest, 0);
    ParseShift(e, rest, 0);
  }

  /** Frames sent whole one after another are read back one by one, in
      order, and then whatever follows them. */
  lemma {:induction false} ParseEncoded(fs: seq<Frame>, tail: seq<byte>)
    requires forall k :: 0 <= k < |fs| ==> Deliverable(fs[k])
    ensures Conversation(EncodeAll(fs) + tail)
            == Talk(fs + Conversation(tail).replies, Conversation(tail).end)
    decreases |fs|
  {
    var c := Conversation(tail);
    if fs == [] {
      assert EncodeAll(fs) + tail == tail;
    } else {
      var rest := EncodeAll(fs[1..]) + tail;
      assert EncodeAll(fs) + tail == Encode(fs[0]) + rest;
      ParseEncoded(fs[1..], tail);
      ParseOne(fs[0], rest);
      assert [fs[0]] + (fs[1..] + c.replies) == fs + c.replies;
    }
  }

  /** `t` after one more frame before it. */
  function Heard(f: Frame, t: Talk): (r: Talk)
    ensures r.replies != [] && r.replies[0] == f && Rest(r) == t
  {
    assert ([f] + t.replies)[1..] == t.replies;
    Talk([f] + t.replies, t.end)
  }

  /** The conversation after its first frame was read. */
  function Rest(t: Talk): (r: Talk)
    requires t.replies != []
    ensures |r.replies| == |t.replies| - 1 && r.end == t.end
  {
    Talk(t.replies[1..], t.end)
  }

  // ----------------------------------------------------------------------
  // The workflow as a function of what the instrument says
  // ----------------------------------------------------------------------

  datatype PollExit = PointDone | Abort | Broken(fault: Fault)

  /** One round of the status loop: one REQUEST_STATUS and one reply. */
  datatype Round = Again(rest: Talk) | Stop(exit: PollExit, rest: Talk)

  /** The reply decides the round: 27 ends the point, 12 ends the batch,
      anything else (BUSY or not) goes round again. */
  function PollRound(t: Talk): (r: Round)
    ensures r.Again? ==> |r.rest.replies| < |t.replies|
  {
    if t.replies == [] then Stop(Broken(t.end), t)
    else if t.replies[0].typeId == OPERATION_COMPLETED then Stop(PointDone, Rest(t))
    else if t.replies[0].typeId == ERROR then Stop(Abort, Rest(t))
    else Again(Rest(t))
  }

  /** How the status loop of one point ends: the number of REQUEST_STATUS
      sent, why it stopped, and what is left to read. */
  datatype Polling = Polling(polls: nat, exit: PollExit, rest: Talk)

  /** The status loop: rounds until one stops it. */
  function Poll(t: Talk): Polling
    decreases |t.replies|
  {
    match PollRound(t)
    case Stop(exit, rest) => Polling(1, exit, rest)
    case Again(rest) => Bumped(Poll(rest), 1)
  }

  function Bumped(p: Polling, k: nat): Polling {
    Polling(p.polls + k, p.exit, p.rest)
  }

  datatype PointExit = Done | Aborted | Failed(fault: Fault)

  /** One point: the frames sent for it, how it ended, what is left. */
  datatype PointRun = PointRun(sent: seq<Frame>, exit: PointExit, rest: Talk)

  /** Steps C and D of the point at index `i`: METHOD_ID, then polling. */
  function Dispatch(i: nat, t: Talk): PointRun
    requires i < MaxInt32
  {
    var poll := Poll(t);
    var sent := [MethodFrame(i)] + Requests(poll.polls);
    match poll.exit
    case PointDone => PointRun(sent, Done, poll.rest)
    case Abort => PointRun(sent, Aborted, poll.rest)
    case Broken(e) => PointRun(sent, Failed(e), poll.rest)
  }

  /** The point at index `i`: MOVE_XY, one reply (of any type),
      SAMPLE_LOADED, one reply (of any type), then steps C and D. */
  function RunPoint(i: nat, p: Point, t: Talk): PointRun
    requires i < MaxInt32 && Sendable(Text.Coordinates(p.x, p.y))
  {
    if |t.replies| == 0 then PointRun([MoveFrame(p)], Failed(t.end), t)
    else if |t.replies| == 1 then PointRun([MoveFrame(p), SampleFrame()], Failed(t.end), Rest(t))
    else
      var d := Dispatch(i, Rest(Rest(t)));
      PointRun([MoveFrame(p), SampleFrame()] + d.sent, d.exit, d.rest)
  }

  /** The result file found for the point at index `i`, if any (a missing
      or unreadable file adds nothing). */
  function FileFor(files: seq<Option<Measurement>>, i: nat): Option<Measurement> {
    if i < |files| then files[i] else None
  }

  /** The summary row `readResultData` adds for point `p`. */
  function ResultEntry(p: Point, file: Option<Measurement>): seq<TestResult> {
    match file
    case None => []
    case Some(m) => [TestResult(m.testName, p.x, p.y, m.hardness, m.modulus)]
  }

  datatype Outcome =
    | HandshakeFailed        // first frame was not READY: nothing sent
    | NoPoints               // empty point list: nothing sent
    | InstrumentError        // ERROR while polling: the batch stops
    | BatchCompleted         // every point done and the final 27 sent
    | TransportFailed(fault: Fault)

  /** A whole run: its outcome, whether the batch began (the summary was
      cleared), the frames sent, the summary rows added, the number of
      points completed, and the input left. */
  datatype Run = Run(outcome: Outcome, started: bool, sent: seq<Frame>,
                     results: seq<TestResult>, completed: nat, rest: Talk)

  /** The point loop from the index `i` on: every point in order until one
      fails or aborts. */
  function Visits(points: seq<Point>, files: seq<Option<Measurement>>, i: nat, t: Talk): (r: Run)
    requires Loadable(points) && i <= |points|
    ensures r.started
    decreases |points| - i, 1
  {
    if i == |points| then Run(BatchCompleted, true, [], [], 0, t) else Visit(points, files, i, t)
  }

  /** The point at index `i` and, when it completes, the points after it. */
  function Visit(points: seq<Point>, files: seq<Option<Measurement>>, i: nat, t: Talk): (r: Run)
    requires Loadable(points) && i < |points|
    ensures r.started
    decreases |points| - i, 0
  {
    var pr := RunPoint(i, points[i], t);
    match pr.exit
    case Failed(e) => Run(TransportFailed(e), true, pr.sent, [], 0, pr.rest)
    case Aborted => Run(InstrumentError, true, pr.sent, [], 0, pr.rest)
    case Done =>
      var r := Visits(points, files, i + 1, pr.rest);
      Run(r.outcome, true, pr.sent + r.sent,
          ResultEntry(points[i], FileFor(files, i)) + r.results, r.completed + 1, r.rest)
  }

  /** The batch: the point loop and, when every point is done, the final
      OPERATION_COMPLETED. */
  function Batch(points: seq<Point>, files: seq<Option<Measurement>>, t: Talk): (r: Run)
    requires Loadable(points)
    ensures r.started
  {
    var v := Visits(points, files, 0, t);
    if v.outcome == BatchCompleted then v.(sent := v.sent + [FinalFrame()]) else v
  }

  /** `startWorkflow` as a function of what the instrument says. */
  function Workflow(points: seq<Point>, files: seq<Option<Measurement>>, t: Talk): Run
    requires Loadable(points)
  {
    if t.replies == [] then Run(TransportFailed(t.end), false, [], [], 0, t)
    else if t.replies[0].typeId != READY then Run(HandshakeFailed, false, [], [], 0, Rest(t))
    else if points == [] then Run(NoPoints, false, [], [], 0, Rest(t))
    else Batch(points, files, Rest(t))
  }

  /** The run from `r` on, after `acc` was sent, `res` was added and `done`
      points were completed. */
  function After(acc: seq<Frame>, res: seq<TestResult>, done: nat, r: Run): Run {
    Run(r.outcome, true, acc + r.sent, res + r.results, done + r.completed, r.rest)
  }

  // ----------------------------------------------------------------------
  // The buffer steps of `receiveMessage`
  // ----------------------------------------------------------------------

  /** Wraps the 12 header bytes and takes the three `getInt`s; the third,
      `len`, is returned. */
  method HeaderLength(h: seq<byte>) returns (len: int32)
    requires |h| == HeaderSize
    ensures len == FromLittleEndian(h[8..12])
  {
    var header := new byte[HeaderSize](k requires 0 <= k < HeaderSize => h[k]);
    assert header[..] == h;
    var bb := new ByteBuffer.Wrap(header);
    var rw := bb.GetInt();
    var ty := bb.GetInt();
    var l := bb.GetInt();
    assert header[8..12] == h[8..12];
    len := l.value;
  }

  /** `allocate(12 + len)`, `put(header)`, `put(body)`, `flip()`. */
  method Assemble(h: seq<byte>, body: seq<byte>, capacity: int32) returns (full: ByteBuffer)
    requires |h| == HeaderSize && capacity == HeaderSize + |body|
    ensures fresh(full) && fresh(full.hb) && full.Valid() && full.Remaining() == h + body
  {
    full := new ByteBuffer.Allocate(capacity);
    var ok := full.Put(h);
    ok := full.Put(body);
    full.Flip();
    assert full.hb[..] == h + body;
  }

  /** A point that completes moves the batch on to the next index. */
  lemma BatchStepDone(points: seq<Point>, files: seq<Option<Measurement>>, i: nat, t: Talk,
                      acc: seq<Frame>, res: seq<TestResult>)
    requires Loadable(points) && i < |points| && RunPoint(i, points[i], t).exit == Done
    ensures var pr := RunPoint(i, points[i], t);
            After(acc, res, i, Visits(points, files, i, t))
            == After(acc + pr.sent, res + ResultEntry(points[i], FileFor(files, i)), i + 1,
                     Visits(points, files, i + 1, pr.rest))
  {
    var pr := RunPoint(i, points[i], t);
    var r := Visits(points, files, i + 1, pr.rest);
    var e := ResultEntry(points[i], FileFor(files, i));
    AppendAssociative(acc, pr.sent, r.sent);
    AppendAssociative(res, e, r.results);
  }

  /** A point that fails or aborts ends the batch there. */
  lemma BatchStepStop(points: seq<Point>, files: seq<Option<Measurement>>, i: nat, t: Talk,
                      acc: seq<Frame>, res: seq<TestResult>)
    requires Loadable(points) && i < |points| && RunPoint(i, points[i], t).exit != Done
    ensures var pr := RunPoint(i, points[i], t);
            After(acc, res, i, Visits(points, files, i, t))
            == Run(if pr.exit == Aborted then InstrumentError else TransportFailed(pr.exit.fault),
                   true, acc + pr.sent, res, i, pr.rest)
  {
    assert res + [] == res;
  }

  // ----------------------------------------------------------------------
  // The controller object
  // ----------------------------------------------------------------------

  /** Writes that are the encodings of `fs`, one each, put `EncodeAll(fs)`
      on the wire. */
  lemma {:induction false} ConcatEncoded(writes: seq<seq<byte>>, fs: seq<Frame>)
    requires |writes| == |fs|
    requires forall k :: 0 <= k < |fs| ==> writes[k] == Encode(fs[k])
    ensures Concat(writes) == EncodeAll(fs)
    decreases |fs|
  {
    if fs != [] {
      ConcatEncoded(writes[1..], fs[1..]);
    }
  }

  class AutomationHost {
    const inbound: DataInputStream
    const outbound: DataOutputStream
    var summaryData: seq<TestResult>
    /** Every summary `saveSummaryToCSV` has written, in order. */
    var reports: seq<seq<TestResult>>
    /** The frames written to `outbound`, one per write. */
    ghost var sent: seq<Frame>
    /** A read has thrown: the rest of `inbound` is no longer read as
        frames. */
    ghost var broken: bool
    /** What the instrument still has to say. */
    ghost var talk: Talk

    ghost predicate Valid()
      reads this, inbound, outbound
    {
      inbound.Valid()
      && (!broken ==> talk == ParseFrom(inbound.data, inbound.pos))
      && |outbound.writes| == |sent|
      && forall k {:trigger outbound.writes[k]} :: 0 <= k < |sent| ==> outbound.writes[k] == Encode(sent[k])
    }

    /** The bytes on the wire are the frames sent, encoded one after
        another. */
    lemma WireBytes()
      requires Valid()
      ensures outbound.Written() == EncodeAll(sent)
    {
      ConcatEncoded(outbound.writes, sent);
    }

    /** `connect`: `input` is everything the instrument will send. */
    constructor Connect(input: seq<byte>)
      ensures Valid() && !broken && fresh(inbound) && fresh(outbound)
      ensures inbound.data == input && inbound.pos == 0 && talk == Conversation(input)
      ensures sent == [] && summaryData == [] && reports == []
    {
      inbound := new DataInputStream(input);
      outbound := new DataOutputStream();
      summaryData, reports := [], [];
      sent := [];
      broken := false;
      talk := Conversation(input);
    }

    /** `sendMessage(type, content)`: frames the text and writes it. */
    method SendMessage(typeId: int32, content: string)
      requires Valid() && Sendable(content)
      modifies outbound, this`sent
      ensures Valid() && sent == old(sent) + [Make(typeId, content)]
    {
      var msg := new TriboMessage(typeId, content);
      var bytes := msg.ToBytes();
      outbound.Write(bytes[..]);
      sent := sent + [msg.Value()];
    }

    /** The reading half of `receiveMessage()`: `readFully` of the 12
        header bytes, then of `len` body bytes. */
    method ReadFrame() returns (r: Result<(seq<byte>, seq<byte>), Fault>)
      requires inbound.Valid()
      modifies inbound
      ensures inbound.Valid()
      ensures var n := FrameSize(old(inbound.Remaining()));
              (r.Ok? <==> n.Ok?)
              && (r.Ok? ==> |r.value.0| == HeaderSize
                            && r.value.0 + r.value.1 == old(inbound.Remaining())[..n.value]
                            && inbound.pos == old(inbound.pos) + n.value)
              && (r.Err? ==> r.error == n.error)
    {
      ghost var input := inbound.Remaining();
      var header := inbound.ReadFully(HeaderSize);
      if header.None? { return Err(EndOfStream); }
      var h := header.value;
      assert h[8..12] == input[8..12];
      var len := HeaderLength(h);
      if len < 0 { return Err(NegativeArraySize); }
      var body := inbound.ReadFully(len);
      if body.None? { return Err(EndOfStream); }
      assert h + body.value == input[..HeaderSize + len];
      r := Ok((h, body.value));
    }

    /** `receiveMessage()` on the bytes: the frame's bytes, then
        `allocate(12 + len)`, two `put`s, `flip()` and `fromBytes`. */
    method ReadMessage() returns (r: Result<Frame, Fault>)
      requires inbound.Valid()
      modifies inbound
      ensures inbound.Valid()
      ensures var s := Receive(old(inbound.Remaining()));
              (r.Ok? <==> s.Ok?)
              && (r.Ok? ==> r.value == s.value.0 && inbound.pos == old(inbound.pos) + s.value.1)
              && (r.Err? ==> r.error == s.error)
    {
      ghost var input := inbound.Remaining();
      var raw := ReadFrame();
      if raw.Err? { return Err(raw.error); }
      var (h, body) := raw.value;
      var capacity := Wrap32(HeaderSize + |body|);
      if capacity < 0 { return Err(IllegalCapacity); }
      var full := Assemble(h, body, capacity);
      DecodeConsumes(input);
      var m := TriboMessage.FromBytes(full);
      match m
      case Ok(tm) => r := Ok(tm.Value());
      case Err(e) => r := Err(e);
    }

    /** `receiveMessage()` as the workflow sees it: the next frame the
        instrument sent, or the exception that ends the conversation. */
    method ReceiveMessage() returns (r: Result<Frame, Fault>)
      requires Valid() && !broken
      modifies inbound, this`broken, this`talk
      ensures Valid()
      ensures (r.Ok? <==> old(talk).replies != [])
              && (r.Ok? ==> r.value == old(talk).replies[0] && talk == Rest(old(talk)) && !broken)
              && (r.Err? ==> r.error == old(talk).end)
    {
      ReadNext(inbound.data, inbound.pos);
      r := ReadMessage();
      if r.Ok? {
        talk := Rest(talk);
      } else {
        broken := true;
      }
    }

    /** `moveXY(x, y)`: MOVE_XY with the coordinates as "X:Y". */
    method MoveXY(p: Point)
      requires Valid() && Sendable(Text.Coordinates(p.x, p.y))
      modifies outbound, this`sent
      ensures Valid() && sent == old(sent) + [MoveFrame(p)]
    {
      var coords := Text.Coordinates(p.x, p.y);
      SendMessage(MOVE_XY, coords);
    }

    /** `readResultData(file, x, y)`: adds one row for (x, y) when the
        result file is there and readable, nothing otherwise. */
    method ReadResultData(p: Point, file: Option<Measurement>)
      modifies this`summaryData
      ensures summaryData == old(summaryData) + ResultEntry(p, file)
    {
      if file.Some? {
        var m := file.value;
        summaryData := summaryData + [TestResult(m.testName, p.x, p.y, m.hardness, m.modulus)];
      }
    }

    /** `saveSummaryToCSV()`: writes the current summary out. */
    method SaveSummaryToCsv()
      modifies this`reports
      ensures reports == old(reports) + [summaryData]
    {
      reports := reports + [summaryData];
    }

    /** One round of step D: REQUEST_STATUS, one reply, and on 27 the
        result file. `None` means go round again. */
    method StatusRound(point: Point, file: Option<Measurement>) returns (stop: Option<PollExit>)
      requires Valid() && !broken
      modifies inbound, outbound, this`sent, this`talk, this`broken, this`summaryData
      ensures Valid() && sent == old(sent) + [StatusFrame()]
      ensures var round := PollRound(old(talk));
              stop == (if round.Again? then None else Some(round.exit))
              && summaryData == (if stop == Some(PointDone) then old(summaryData) + ResultEntry(point, file) else old(summaryData))
              && (!(round.Stop? && round.exit.Broken?) ==> talk == round.rest && !broken)
    {
      var request := StatusFrame();
      SendMessage(request.typeId, request.message);
      var status := ReceiveMessage();
      if status.Err? {
        return Some(Broken(status.error));
      }
      if status.value.typeId == BUSY {
        stop := None;
      } else if status.value.typeId == OPERATION_COMPLETED {
        ReadResultData(point, file);
        stop := Some(PointDone);
      } else if status.value.typeId == ERROR {
        stop := Some(Abort);
      } else {
        stop := None;
      }
    }

    /** Step D of one point: status rounds until 27 or 12. */
    method PollPoint(point: Point, file: Option<Measurement>) returns (exit: PollExit)
      requires Valid() && !broken
      modifies inbound, outbound, this`sent, this`talk, this`broken, this`summaryData
      ensures Valid()
      ensures var p := Poll(old(talk));
              exit == p.exit && sent == old(sent) + Requests(p.polls)
              && summaryData == (if exit == PointDone then old(summaryData) + ResultEntry(point, file) else old(summaryData))
              && (!exit.Broken? ==> talk == p.rest && !broken)
    {
      ghost var whole := Poll(talk);
      ghost var sent0 := sent;
      ghost var round := PollRound(talk);
      var stop := StatusRound(point, file);
      ghost var polls: nat := 1;
      while stop.None?
        invariant Valid()
        invariant sent == sent0 + Requests(polls)
        invariant stop.None? <==> round.Again?
        invariant stop.None? ==> summaryData == old(summaryData) && talk == round.rest && !broken
                                 && whole == Bumped(Poll(round.rest), polls)
        invariant stop.Some? ==> stop.value == round.exit && whole == Polling(polls, round.exit, round.rest)
                                 && summaryData == (if round.exit == PointDone then old(summaryData) + ResultEntry(point, file) else old(summaryData))
                                 && (!round.exit.Broken? ==> talk == round.rest && !broken)
        decreases if stop.None? then |round.rest.replies| + 1 else 0
      {
        round := PollRound(round.rest);
        stop := StatusRound(point, file);
        AppendAssociative(sent0, Requests(polls), [StatusFrame()]);
        polls := polls + 1;
      }
      exit := stop.value;
    }

    /** Steps C and D of one point: dispatch the method, then poll until
        the point is done. */
    method DispatchPoint(i: nat, point: Point, file: Option<Measurement>) returns (exit: PointExit)
      requires Valid() && !broken && i < MaxInt32
      modifies inbound, outbound, this`sent, this`talk, this`broken, this`summaryData
      ensures Valid()
      ensures var d := Dispatch(i, old(talk));
              exit == d.exit && sent == old(sent) + d.sent
              && summaryData == (if exit == Done then old(summaryData) + ResultEntry(point, file) else old(summaryData))
              && (!exit.Failed? ==> talk == d.rest && !broken)
    {
      ghost var sent0 := sent;
      ghost var pollTalk := talk;
      MethodNameSendable(i);
      var methodName := MethodName(i);
      SendMessage(METHOD_ID, methodName);
      var polled := PollPoint(point, file);
      AppendAssociative(sent0, [MethodFrame(i)], Requests(Poll(pollTalk).polls));
      match polled
      case PointDone => exit := Done;
      case Abort => exit := Aborted;
      case Broken(e) => exit := Failed(e);
    }

    /** One pass of the point loop, steps A to D, for the point at index
        `i`. */
    method VisitPoint(i: nat, point: Point, file: Option<Measurement>) returns (exit: PointExit)
      requires Valid() && !broken && i < MaxInt32 && Sendable(Text.Coordinates(point.x, point.y))
      modifies inbound, outbound, this`sent, this`talk, this`broken, this`summaryData
      ensures Valid()
      ensures var pr := RunPoint(i, point, old(talk));
              exit == pr.exit && sent == old(sent) + pr.sent
              && summaryData == (if exit == Done then old(summaryData) + ResultEntry(point, file) else old(summaryData))
              && (!exit.Failed? ==> talk == pr.rest && !broken)
    {
      ghost var sent0 := sent;
      // A. move the stage; the reply (JOB_EXEC_STATUS or not) is only shown
      MoveXY(point);
      var moveAck := ReceiveMessage();
      if moveAck.Err? { return Failed(moveAck.error); }

      // B. confirm the sample; the reply is not inspected
      var sample := SampleFrame();
      SendMessage(sample.typeId, sample.message);
      AppendTwo(sent0, MoveFrame(point), SampleFrame());
      var approach := ReceiveMessage();
      if approach.Err? { return Failed(approach.error); }

      // C. and D.
      ghost var sent1 := sent;
      ghost var d := Dispatch(i, talk);
      exit := DispatchPoint(i, point, file);
      AppendAssociative(sent0, [MoveFrame(point), SampleFrame()], d.sent);
    }

    /** `startWorkflow()` with the points file's contents `points` and the
        result file found after each point in `files`. */
    method StartWorkflow(points: seq<Point>, files: seq<Option<Measurement>>) returns (outcome: Outcome)
      requires Valid() && !broken && Loadable(points)
      modifies this, inbound, outbound
      ensures Valid()
      ensures var w := Workflow(points, files, old(talk));
              outcome == w.outcome
              && sent == old(sent) + w.sent
              && summaryData == (if w.started then w.results else old(summaryData))
              && reports == old(reports) + (if outcome == BatchCompleted then [summaryData] else [])
              && (!outcome.TransportFailed? ==> talk == w.rest && !broken)
    {
      // 1. handshake
      ghost var t := talk;
      AppendNothing(sent);
      var firstMsg := ReceiveMessage();
      if firstMsg.Err? {
        assert Workflow(points, files, t) == Run(TransportFailed(t.end), false, [], [], 0, t);
        return TransportFailed(firstMsg.error);
      }
      if firstMsg.value.typeId != READY {
        assert Workflow(points, files, t) == Run(HandshakeFailed, false, [], [], 0, Rest(t));
        return HandshakeFailed;
      }

      // 2. the points file
      var pointList := points;
      if |pointList| == 0 {
        assert Workflow(points, files, t) == Run(NoPoints, false, [], [], 0, Rest(t));
        return NoPoints;
      }

      // 3. and 4. the batch
      assert Workflow(points, files, t) == Batch(points, files, Rest(t));
      outcome := RunBatch(pointList, files);
    }

    /** Step 3 of `startWorkflow()`: every point is visited in order
        until one fails or aborts. */
    method VisitPoints(points: seq<Point>, files: seq<Option<Measurement>>) returns (outcome: Outcome)
      requires Valid() && !broken && Loadable(points)
      modifies inbound, outbound, this`sent, this`talk, this`broken, this`summaryData
      ensures Valid()
      ensures var v := Visits(points, files, 0, old(talk));
              outcome == v.outcome
              && sent == old(sent) + v.sent
              && summaryData == old(summaryData) + v.results
              && (!outcome.TransportFailed? ==> talk == v.rest && !broken)
    {
      ghost var v := Visits(points, files, 0, talk);
      ghost var whole := After([], summaryData, 0, v);
      assert [] + v.sent == v.sent;
      ghost var sent0 := sent;
      ghost var acc: seq<Frame> := [];
      var i := 0;
      while i < |points|
        invariant 0 <= i <= |points|
        invariant Valid() && !broken
        invariant sent == sent0 + acc
        invariant whole == After(acc, summaryData, i, Visits(points, files, i, talk))
      {
        ghost var here := talk;
        ghost var summaryHere := summaryData;
        var exit := VisitPoint(i, points[i], FileFor(files, i));
        ghost var pr := RunPoint(i, points[i], here);
        AppendAssociative(sent0, acc, pr.sent);
        if exit != Done {
          BatchStepStop(points, files, i, here, acc, summaryHere);
          return if exit.Aborted? then InstrumentError else TransportFailed(exit.fault);
        }
        BatchStepDone(points, files, i, here, acc, summaryHere);
        acc := acc + pr.sent;
        i := i + 1;
      }
      assert acc + [] == acc && summaryData + [] == summaryData;
      outcome := BatchCompleted;
    }

    /** Steps 3 and 4 of `startWorkflow()`: the summary is cleared, the
        points are visited, and, when all are done, the final 27 is sent
        and the summary written. */
    method RunBatch(points: seq<Point>, files: seq<Option<Measurement>>) returns (outcome: Outcome)
      requires Valid() && !broken && Loadable(points)
      modifies this, inbound, outbound
      ensures Valid()
      ensures var b := Batch(points, files, old(talk));
              outcome == b.outcome
              && sent == old(sent) + b.sent
              && summaryData == b.results
              && reports == old(reports) + (if outcome == BatchCompleted then [summaryData] else [])
              && (!outcome.TransportFailed? ==> talk == b.rest && !broken)
    {
      summaryData := [];
      ghost var sent0 := sent;
      outcome := VisitPoints(points, files);
      if outcome == BatchCompleted {
        ghost var acc := sent[|sent0|..];
        assert sent == sent0 + acc;
        var last := FinalFrame();
        SendMessage(last.typeId, last.message);
        AppendAssociative(sent0, acc, [FinalFrame()]);
        SaveSummaryToCsv();
      }
    }
  }
}
