/** `TriboScannerSimulator`: the stand-in instrument. Once the controller
    has connected it announces READY, then reads frames until the
    connection closes and answers each one by its type, keeping one counter,
    `busyCount`, of the status requests answered BUSY since the last
    METHOD_ID. */
module Simulator {
  import opened Bytes
  import opened Wrappers
  import opened Buffers
  import opened Streams
  import opened Messages
  import opened Catalog
  import opened Seqs
  import Utf8

  // ----------------------------------------------------------------------
  // The frames the instrument sends
  // ----------------------------------------------------------------------

  function ReadyFrame(): (f: Frame)
    ensures f.readWrite == 1 && f.typeId == READY && f.message == "Triboscan in Loading Position"
    ensures Consistent(f) && f.length == 29
  {
    Utf8.EncodeAscii("Triboscan in Loading Position");
    Frame(1, READY, 29, "Triboscan in Loading Position")
  }

  function ApproachFrame(): (f: Frame)
    ensures f.readWrite == 1 && f.typeId == APPROACH_STATUS && f.message == "Quick approach started"
    ensures Consistent(f) && f.length == 22
  {
    Utf8.EncodeAscii("Quick approach started");
    Frame(1, APPROACH_STATUS, 22, "Quick approach started")
  }

  function BusyFrame(): (f: Frame)
    ensures f.readWrite == 1 && f.typeId == BUSY && f.message == "TS_BUSY: Indenting..."
    ensures Consistent(f) && f.length == 21
  {
    Utf8.EncodeAscii("TS_BUSY: Indenting...");
    Frame(1, BUSY, 21, "TS_BUSY: Indenting...")
  }

  function DoneFrame(): (f: Frame)
    ensures f.readWrite == 1 && f.typeId == OPERATION_COMPLETED && f.message == "All operations completed"
    ensures Consistent(f) && f.length == 24
  {
    Utf8.EncodeAscii("All operations completed");
    Frame(1, OPERATION_COMPLETED, 24, "All operations completed")
  }

  function MovingFrame(): (f: Frame)
    ensures f.readWrite == 1 && f.typeId == JOB_EXEC_STATUS && f.message == "TS_JOB_EXEC_STATUS: Moving Stages..."
    ensures Consistent(f) && f.length == 36
  {
    MovingText();
    Frame(1, JOB_EXEC_STATUS, 36, "TS_JOB_EXEC_STATUS: Moving Stages...")
  }

  lemma MovingText()
    ensures |Utf8.Encode("TS_JOB_EXEC_STATUS: Moving Stages...")| == 36
  {
    var s := "TS_JOB_EXEC_STATUS: Moving Stages...";
    forall k | 0 <= k < |s| ensures s[k] as int < 0x80 {}
    Utf8.EncodeAscii(s);
  }

  // ----------------------------------------------------------------------
  // The reply rules
  // ----------------------------------------------------------------------

  /** The answer to one frame: the reply, if any, and the new `busyCount`. */
  datatype Reaction = Reaction(reply: Option<Frame>, busy: int)

  function Replies(r: Reaction): (fs: seq<Frame>)
    ensures |fs| <= 1
  {
    if r.reply.Some? then [r.reply.value] else []
  }

  /** SAMPLE_LOADED is answered APPROACH_STATUS and MOVE_XY JOB_EXEC_STATUS;
      METHOD_ID is not answered and restarts the count; REQUEST_STATUS is
      answered BUSY three times and then OPERATION_COMPLETED, which
      restarts the count; every other type is ignored. */
  function Respond(busy: int, typeId: int32): (r: Reaction)
    ensures 0 <= busy <= 3 ==> 0 <= r.busy <= 3
    ensures r.reply.Some? <==> typeId == SAMPLE_LOADED || typeId == MOVE_XY || typeId == REQUEST_STATUS
    ensures r.busy != busy ==> typeId == METHOD_ID || typeId == REQUEST_STATUS
    ensures typeId == SAMPLE_LOADED ==> r == Reaction(Some(ApproachFrame()), busy)
    ensures typeId == MOVE_XY ==> r == Reaction(Some(MovingFrame()), busy)
    ensures typeId == METHOD_ID ==> r.busy == 0
    ensures typeId == REQUEST_STATUS ==>
              (r.reply.value.typeId == OPERATION_COMPLETED <==> busy >= 3)
              && (busy < 3 ==> r == Reaction(Some(BusyFrame()), busy + 1))
              && (busy >= 3 ==> r == Reaction(Some(DoneFrame()), 0))
    ensures r.reply.Some? ==> Consistent(r.reply.value) && r.reply.value.readWrite == 1
                              && HeaderSize + r.reply.value.length <= MaxInt32
  {
    if typeId == SAMPLE_LOADED then Reaction(Some(ApproachFrame()), busy)
    else if typeId == METHOD_ID then Reaction(None, 0)
    else if typeId == REQUEST_STATUS then
      if busy < 3 then Reaction(Some(BusyFrame()), busy + 1) else Reaction(Some(DoneFrame()), 0)
    else if typeId == MOVE_XY then Reaction(Some(MovingFrame()), busy)
    else Reaction(None, busy)
  }

  // ----------------------------------------------------------------------
  // The dispatch loop over the bytes the controller sends
  // ----------------------------------------------------------------------

  /** How the loop ends: the connection closed (`read` returned -1), or an
      exception left `main`. */
  datatype Ending = Closed | Crashed(fault: Fault)

  /** One pass of the loop: it ends, or it answers one frame and leaves
      the rest of the input, the header buffer and the new count. */
  datatype Turn = Quit(end: Ending) | Next(out: seq<Frame>, rest: seq<byte>, header: seq<byte>, busy: int)

  /** One pass over the unread input `input` with the header buffer
      holding `header`: `read` fills the front of the buffer with what is
      there, up to 12 bytes, and leaves the rest of it as it was; a
      negative `len` fails `new byte[len]`, and a body cut short fails
      `readFully`. */
  function Exchange(input: seq<byte>, header: seq<byte>, busy: int): (r: Turn)
    requires |header| == HeaderSize
    ensures r.Next? ==> |r.rest| < |input| && |r.header| == HeaderSize && |r.out| <= 1
  {
    if input == [] then Quit(Closed)
    else
      var k := Chunk(HeaderSize, |input|);
      var h := input[..k] + header[k..];
      var rest := input[k..];
      var len := FromLittleEndian(h[8..12]);
      if len < 0 then Quit(Crashed(NegativeArraySize))
      else if |rest| < len then Quit(Crashed(EndOfStream))
      else
        var r := Respond(busy, FromLittleEndian(h[4..8]));
        Next(Replies(r), rest[len..], h, r.busy)
  }

  /** The whole conversation: the number of frames answered, the replies in
      order, how the loop ended and the final count. */
  datatype Served = Served(heard: nat, replies: seq<Frame>, end: Ending, busy: int)

  function Session(input: seq<byte>, header: seq<byte>, busy: int): Served
    requires |header| == HeaderSize
    decreases |input|
  {
    match Exchange(input, header, busy)
    case Quit(e) => Served(0, [], e, busy)
    case Next(out, rest, h, b) =>
      var s := Session(rest, h, b);
      Served(s.heard + 1, out + s.replies, s.end, s.busy)
  }

  /** The count stays between 0 and 3 whatever arrives, and no frame gets
      more than one reply. */
  lemma {:induction false} SessionBounds(input: seq<byte>, header: seq<byte>, busy: int)
    requires |header| == HeaderSize && 0 <= busy <= 3
    ensures var s := Session(input, header, busy);
            0 <= s.busy <= 3 && |s.replies| <= s.heard
    decreases |input|
  {
    match Exchange(input, header, busy)
    case Quit(_) =>
    case Next(_, rest, h, b) => SessionBounds(rest, h, b);
  }

  // ----------------------------------------------------------------------
  // Answers to whole frames
  // ----------------------------------------------------------------------

  /** The answers to frames of the given types, one after another, with
      the connection closed after the last. */
  function React(busy: int, types: seq<int32>): (v: Served)
    ensures v.heard == |types| && v.end == Closed
    decreases |types|
  {
    if types == [] then Served(0, [], Closed, busy)
    else
      var r := Respond(busy, types[0]);
      var s := React(r.busy, types[1..]);
      Served(s.heard + 1, Replies(r) + s.replies, Closed, s.busy)
  }

  /** `n` status requests in a row. */
  function Statuses(n: nat): (ts: seq<int32>)
    ensures |ts| == n
  {
    if n == 0 then [] else [REQUEST_STATUS] + Statuses(n - 1)
  }

  /** `n` BUSY replies in a row. */
  function Busies(n: nat): (fs: seq<Frame>)
    ensures |fs| == n
  {
    if n == 0 then [] else [BusyFrame()] + Busies(n - 1)
  }

  /** With the count at `busy`, the next `4 - busy` status requests are
      answered BUSY but the last, which is answered OPERATION_COMPLETED and
      restarts the count. */
  lemma {:induction false} Countdown(busy: int)
    requires 0 <= busy <= 3
    ensures React(busy, Statuses(4 - busy)) == Served(4 - busy, Busies(3 - busy) + [DoneFrame()], Closed, 0)
    decreases 3 - busy
  {
    ReactCons(busy, REQUEST_STATUS, Statuses(3 - busy));
    if busy == 3 {
      assert [] + [DoneFrame()] == [DoneFrame()];
    } else {
      Countdown(busy + 1);
      AppendAssociative([BusyFrame()], Busies(2 - busy), [DoneFrame()]);
    }
  }

  /** The first frame of a run is answered first. */
  lemma ReactCons(busy: int, t: int32, ts: seq<int32>)
    ensures var r := Respond(busy, t);
            var s := React(r.busy, ts);
            React(busy, [t] + ts) == Served(s.heard + 1, Replies(r) + s.replies, Closed, s.busy)
  {
    assert ([t] + ts)[1..] == ts;
  }

  /** After METHOD_ID, whatever the count was, the next three status
      requests are answered BUSY and the fourth OPERATION_COMPLETED, and
      the count is back at 0. */
  lemma StatusCycle(busy: int)
    ensures React(busy, [METHOD_ID] + Statuses(4)) == Served(5, Busies(3) + [DoneFrame()], Closed, 0)
  {
    assert ([METHOD_ID] + Statuses(4))[1..] == Statuses(4);
    Countdown(0);
  }

  /** Answering two runs of frames one after the other. */
  lemma {:induction false} ReactAppend(busy: int, a: seq<int32>, b: seq<int32>)
    ensures var s := React(busy, a);
            var t := React(s.busy, b);
            React(busy, a + b) == Served(|a| + |b|, s.replies + t.replies, Closed, t.busy)
    decreases |a|
  {
    if a == [] {
      assert a + b == b;
    } else {
      var r := Respond(busy, a[0]);
      var s := React(r.busy, a[1..]);
      var t := React(s.busy, b);
      assert (a + b)[0] == a[0] && (a + b)[1..] == a[1..] + b;
      ReactAppend(r.busy, a[1..], b);
      AppendAssociative(Replies(r), s.replies, t.replies);
    }
  }

  /** The types of a run of frames. */
  function Types(fs: seq<Frame>): (ts: seq<int32>)
    ensures |ts| == |fs| && forall k :: 0 <= k < |fs| ==> ts[k] == fs[k].typeId
  {
    if fs == [] then [] else [fs[0].typeId] + Types(fs[1..])
  }

  /** A frame that arrives whole is answered by its type, and the loop
      goes on right after its bytes. */
  lemma ExchangeOne(f: Frame, tail: seq<byte>, header: seq<byte>, busy: int)
    requires Deliverable(f) && |header| == HeaderSize
    ensures var r := Respond(busy, f.typeId);
            var e := Encode(f);
            Exchange(e + tail, header, busy) == Next(Replies(r), tail, e[..HeaderSize], r.busy)
  {
    var e := Encode(f);
    var b := e + tail;
    EncodeLayout(f);
    assert b[..HeaderSize] + header[HeaderSize..] == e[..HeaderSize];
    assert e[..HeaderSize][8..12] == e[8..12] && e[..HeaderSize][4..8] == e[4..8];
    assert b[HeaderSize..][f.length..] == tail;
  }

  /** Frames that arrive whole, followed by the connection closing, are
      answered exactly as their types say. */
  lemma {:induction false} SessionFrames(fs: seq<Frame>, header: seq<byte>, busy: int)
    requires forall k :: 0 <= k < |fs| ==> Deliverable(fs[k])
    requires |header| == HeaderSize
    ensures Session(EncodeAll(fs), header, busy) == React(busy, Types(fs))
    decreases |fs|
  {
    if fs != [] {
      var e := Encode(fs[0]);
      var tail := EncodeAll(fs[1..]);
      ExchangeOne(fs[0], tail, header, busy);
      var r := Respond(busy, fs[0].typeId);
      SessionFrames(fs[1..], e[..HeaderSize], r.busy);
      assert Types(fs)[1..] == Types(fs[1..]);
    }
  }

  // ----------------------------------------------------------------------
  // The simulator's `main`
  // ----------------------------------------------------------------------

  class TriboScannerSimulator {
    const inbound: DataInputStream
    const outbound: DataOutputStream
    var busyCount: int
    /** The frames written to `outbound`, one per write. */
    ghost var replies: seq<Frame>

    ghost predicate Valid()
      reads this, inbound, outbound
    {
      inbound.Valid() && 0 <= busyCount <= 3
      && |outbound.writes| == |replies|
      && forall k {:trigger outbound.writes[k]} :: 0 <= k < |replies| ==> outbound.writes[k] == Encode(replies[k])
    }

    /** `accept`: `input` is everything the controller will send. */
    constructor Accept(input: seq<byte>)
      ensures Valid() && fresh(inbound) && fresh(outbound)
      ensures inbound.data == input && inbound.pos == 0 && replies == [] && busyCount == 0
    {
      inbound := new DataInputStream(input);
      outbound := new DataOutputStream();
      busyCount := 0;
      replies := [];
    }

    /** `out.write(new TriboMessage(type, text).toBytes())`. */
    method Send(f: Frame)
      requires Valid() && Deliverable(f) && f.readWrite == 1
      modifies outbound, this`replies
      ensures Valid() && replies == old(replies) + [f]
    {
      var msg := new TriboMessage(f.typeId, f.message);
      var bytes := msg.ToBytes();
      outbound.Write(bytes[..]);
      replies := replies + [f];
    }

    /** One pass of the dispatch loop with the header buffer `header`. */
    method Step(header: array<byte>) returns (stop: Option<Ending>)
      requires Valid() && header.Length == HeaderSize
      modifies inbound, outbound, header, this`busyCount, this`replies
      ensures Valid()
      ensures match Exchange(old(inbound.Remaining()), old(header[..]), old(busyCount))
              case Quit(e) => stop == Some(e) && replies == old(replies) && busyCount == old(busyCount)
              case Next(out, rest, h, b) =>
                stop == None && replies == old(replies) + out
                && inbound.Remaining() == rest && header[..] == h && busyCount == b
    {
      ghost var input := inbound.Remaining();
      ghost var before := header[..];
      var n := inbound.Read(header);
      if n == -1 {
        return Some(Closed);
      }
      ghost var h := header[..];
      assert h == input[..n] + before[n..] && n == Chunk(HeaderSize, |input|);
      var typeId, len := Fields(header);
      if len < 0 {
        return Some(Crashed(NegativeArraySize));
      }
      ghost var rest := inbound.Remaining();
      assert rest == input[n..];
      var msgBody := inbound.ReadFully(len);
      if msgBody.None? {
        return Some(Crashed(EndOfStream));
      }
      assert inbound.Remaining() == rest[len..];
      Dispatch(typeId);
      stop := None;
    }

    /** `ByteBuffer.wrap(header)` and its three `getInt` calls. */
    static method Fields(header: array<byte>) returns (typeId: int32, len: int32)
      requires header.Length == HeaderSize
      ensures typeId == FromLittleEndian(header[4..8]) && len == FromLittleEndian(header[8..12])
    {
      var bb := new ByteBuffer.Wrap(header);
      var rw := bb.GetInt();
      var t := bb.GetInt();
      var l := bb.GetInt();
      typeId, len := t.value, l.value;
    }

    /** The reply rules of the loop body for a frame of type `typeId`. */
    method Dispatch(typeId: int32)
      requires Valid()
      modifies outbound, this`busyCount, this`replies
      ensures Valid()
      ensures var r := Respond(old(busyCount), typeId);
              replies == old(replies) + Replies(r) && busyCount == r.busy
    {
      if typeId == SAMPLE_LOADED {
        Send(ApproachFrame());
      } else if typeId == METHOD_ID {
        busyCount := 0;
        assert replies + [] == replies;
      } else if typeId == REQUEST_STATUS {
        if busyCount < 3 {
          Send(BusyFrame());
          busyCount := busyCount + 1;
        } else {
          Send(DoneFrame());
          busyCount := 0;
        }
      } else if typeId == MOVE_XY {
        Send(MovingFrame());
      } else {
        assert replies + [] == replies;
      }
    }

    /** `main` after the connection is accepted: READY first, then the
        dispatch loop until the connection closes or a read fails. */
    method Serve() returns (end: Ending)
      requires Valid()
      modifies inbound, outbound, this`busyCount, this`replies
      ensures Valid()
      ensures var s := Session(old(inbound.Remaining()), Zeros(HeaderSize), 0);
              replies == old(replies) + [ReadyFrame()] + s.replies && end == s.end && busyCount == s.busy
    {
      Send(ReadyFrame());
      busyCount := 0;
      var header := new byte[HeaderSize](_ => 0);
      assert header[..] == Zeros(HeaderSize);
      ghost var goal := Session(inbound.Remaining(), header[..], 0);
      ghost var sent0 := replies;
      while true
        invariant Valid() && header.Length == HeaderSize
        invariant var s := Session(inbound.Remaining(), header[..], busyCount);
                  sent0 + goal.replies == replies + s.replies && s.end == goal.end && s.busy == goal.busy
        decreases |inbound.Remaining()|
      {
        ghost var here := replies;
        ghost var t := Exchange(inbound.Remaining(), header[..], busyCount);
        var stop := Step(header);
        if stop.Some? {
          assert replies + [] == replies;
          return stop.value;
        }
        AppendAssociative(here, t.out, Session(t.rest, t.header, t.busy).replies);
      }
    }
  }

  /** `n` zero bytes: a fresh `new byte[n]`. */
  function Zeros(n: nat): (z: seq<byte>)
    ensures |z| == n && forall k :: 0 <= k < n ==> z[k] == 0
  {
    seq(n, _ => 0)
  }
}
