/** The controller and the stand-in instrument connected to each other: the
    frames the simulator writes are what `startWorkflow` reads, and the
    frames `startWorkflow` writes are what the simulator reads. For any
    non-empty point list that can be loaded, the batch completes, every point takes
    exactly four status requests, and the simulator's replies to the
    controller's frames are the very frames the controller was given. */
module ClosedLoop {
  import opened Bytes
  import opened Wrappers
  import opened Messages
  import opened Catalog
  import opened Host
  import opened Seqs
  import Text
  import Traffic
  import Simulator

  // ----------------------------------------------------------------------
  // The two sides of the conversation
  // ----------------------------------------------------------------------

  /** The simulator's answers to one point: JOB_EXEC_STATUS for MOVE_XY,
      APPROACH_STATUS for SAMPLE_LOADED, nothing for METHOD_ID, then BUSY
      three times and OPERATION_COMPLETED for the status requests. */
  function PointAnswers(): (fs: seq<Frame>)
    ensures |fs| == 6
  {
    [Simulator.MovingFrame(), Simulator.ApproachFrame()] + (Simulator.Busies(3) + [Simulator.DoneFrame()])
  }

  /** The answers to the points from index `i` up to `j`. */
  function Answers(i: nat, j: nat): (fs: seq<Frame>)
    requires i <= j
    ensures |fs| == 6 * (j - i)
    decreases j - i
  {
    if i == j then [] else PointAnswers() + Answers(i + 1, j)
  }

  /** What the controller sends for the point at index `i` when it is
      answered as the simulator answers: MOVE_XY, SAMPLE_LOADED, METHOD_ID
      and four REQUEST_STATUS. */
  function PointFrames(i: nat, p: Point): (fs: seq<Frame>)
    requires i < MaxInt32 && Sendable(Text.Coordinates(p.x, p.y))
    ensures |fs| == 7
  {
    [MoveFrame(p), SampleFrame(), MethodFrame(i)] + Requests(4)
  }

  /** The frames of the points from index `i` on. */
  function BatchFrames(points: seq<Point>, i: nat): (fs: seq<Frame>)
    requires Loadable(points) && i <= |points|
    ensures |fs| == 7 * (|points| - i)
    decreases |points| - i
  {
    if i == |points| then [] else PointFrames(i, points[i]) + BatchFrames(points, i + 1)
  }

  predicate AllDeliverable(fs: seq<Frame>) {
    forall k :: 0 <= k < |fs| ==> Deliverable(fs[k])
  }

  lemma DeliverableAppend(fs: seq<Frame>, gs: seq<Frame>)
    requires AllDeliverable(fs) && AllDeliverable(gs)
    ensures AllDeliverable(fs + gs)
  {
    forall k | 0 <= k < |fs + gs| ensures Deliverable((fs + gs)[k]) {
      if k < |fs| {
        assert (fs + gs)[k] == fs[k];
      } else {
        assert (fs + gs)[k] == gs[k - |fs|];
      }
    }
  }

  // ----------------------------------------------------------------------
  // The controller's side
  // ----------------------------------------------------------------------

  /** BUSY `n` times and then OPERATION_COMPLETED: `n + 1` status requests
      and the point is done. */
  lemma {:induction false} PollAnswered(n: nat, tail: seq<Frame>, e: Fault)
    ensures Poll(Talk(Simulator.Busies(n) + ([Simulator.DoneFrame()] + tail), e))
            == Polling(n + 1, PointDone, Talk(tail, e))
  {
    var t := Talk(Simulator.Busies(n) + ([Simulator.DoneFrame()] + tail), e);
    if n == 0 {
      assert t.replies == [Simulator.DoneFrame()] + tail;
      assert t.replies[1..] == tail;
    } else {
      var b := Simulator.Busies(n - 1) + ([Simulator.DoneFrame()] + tail);
      AppendAssociative([Simulator.BusyFrame()], Simulator.Busies(n - 1), [Simulator.DoneFrame()] + tail);
      assert t.replies == [Simulator.BusyFrame()] + b;
      assert t.replies[1..] == b;
      assert PollRound(t) == Again(Talk(b, e));
      PollAnswered(n - 1, tail, e);
    }
  }

  /** A point answered as the simulator answers is done after four status
      requests, and the rest of the conversation follows its answers. */
  lemma RunPointAnswered(i: nat, p: Point, tail: seq<Frame>, e: Fault)
    requires i < MaxInt32 && Sendable(Text.Coordinates(p.x, p.y))
    ensures RunPoint(i, p, Talk(PointAnswers() + tail, e)) == PointRun(PointFrames(i, p), Done, Talk(tail, e))
  {
    var polls := Simulator.Busies(3) + ([Simulator.DoneFrame()] + tail);
    var t := Talk(PointAnswers() + tail, e);
    AppendAssociative(Simulator.Busies(3), [Simulator.DoneFrame()], tail);
    AppendAssociative([Simulator.MovingFrame(), Simulator.ApproachFrame()],
                      Simulator.Busies(3) + [Simulator.DoneFrame()], tail);
    assert t.replies == [Simulator.MovingFrame(), Simulator.ApproachFrame()] + polls;
    assert Rest(Rest(t)) == Talk(polls, e);
    PollAnswered(3, tail, e);
    assert [MoveFrame(p), SampleFrame()] + ([MethodFrame(i)] + Requests(4)) == PointFrames(i, p);
  }

  /** The point loop from index `i` on, answered as the simulator answers:
      every point completes, in order, and nothing is left to read. */
  lemma {:induction false} VisitsAnswered(points: seq<Point>, files: seq<Option<Measurement>>, i: nat, e: Fault)
    requires Loadable(points) && i <= |points|
    ensures Visits(points, files, i, Talk(Answers(i, |points|), e))
            == Run(BatchCompleted, true, BatchFrames(points, i), Traffic.Entries(points, files, i, |points|),
                   |points| - i, Talk([], e))
    decreases |points| - i
  {
    if i < |points| {
      var t := Talk(Answers(i, |points|), e);
      assert Visits(points, files, i, t) == Visit(points, files, i, t);
      RunPointAnswered(i, points[i], Answers(i + 1, |points|), e);
      VisitsAnswered(points, files, i + 1, e);
    }
  }

  /** `startWorkflow` answered as the simulator answers: READY, then each
      point's answers. The batch completes, each point with MOVE_XY,
      SAMPLE_LOADED, METHOD_ID and four status requests, the final
      OPERATION_COMPLETED goes last, and every result file is collected. */
  lemma HostAnswered(points: seq<Point>, files: seq<Option<Measurement>>, e: Fault)
    requires Loadable(points) && points != []
    ensures Workflow(points, files, Talk([Simulator.ReadyFrame()] + Answers(0, |points|), e))
            == Run(BatchCompleted, true, BatchFrames(points, 0) + [FinalFrame()],
                   Traffic.Entries(points, files, 0, |points|), |points|, Talk([], e))
  {
    var t := Talk([Simulator.ReadyFrame()] + Answers(0, |points|), e);
    assert Rest(t) == Talk(Answers(0, |points|), e);
    VisitsAnswered(points, files, 0, e);
  }

  // ----------------------------------------------------------------------
  // The simulator's side
  // ----------------------------------------------------------------------

  /** The types of two runs of frames. */
  lemma {:induction false} TypesAppend(fs: seq<Frame>, gs: seq<Frame>)
    ensures Simulator.Types(fs + gs) == Simulator.Types(fs) + Simulator.Types(gs)
    decreases |fs|
  {
    if fs == [] {
      assert fs + gs == gs;
    } else {
      assert (fs + gs)[1..] == fs[1..] + gs;
      TypesAppend(fs[1..], gs);
    }
  }

  /** One point's frames are answered with that point's answers, and the
      count ends at 0. */
  lemma PointReact(busy: int, i: nat, p: Point)
    requires i < MaxInt32 && Sendable(Text.Coordinates(p.x, p.y))
    ensures Simulator.React(busy, Simulator.Types(PointFrames(i, p)))
            == Simulator.Served(7, PointAnswers(), Simulator.Closed, 0)
  {
    var rest := [METHOD_ID] + Simulator.Statuses(4);
    var polls := Simulator.Busies(3) + [Simulator.DoneFrame()];
    PointTypes(i, p);
    Simulator.StatusCycle(busy);
    Simulator.ReactCons(busy, SAMPLE_LOADED, rest);
    assert Simulator.Replies(Simulator.Respond(busy, SAMPLE_LOADED)) == [Simulator.ApproachFrame()];
    assert Simulator.React(busy, [SAMPLE_LOADED] + rest)
        == Simulator.Served(6, [Simulator.ApproachFrame()] + polls, Simulator.Closed, 0);
    Simulator.ReactCons(busy, MOVE_XY, [SAMPLE_LOADED] + rest);
    assert Simulator.Replies(Simulator.Respond(busy, MOVE_XY)) == [Simulator.MovingFrame()];
    AppendAssociative([Simulator.MovingFrame()], [Simulator.ApproachFrame()], polls);
    assert [Simulator.MovingFrame()] + [Simulator.ApproachFrame()] == [Simulator.MovingFrame(), Simulator.ApproachFrame()];
  }

  lemma PointTypes(i: nat, p: Point)
    requires i < MaxInt32 && Sendable(Text.Coordinates(p.x, p.y))
    ensures Simulator.Types(PointFrames(i, p)) == [MOVE_XY] + ([SAMPLE_LOADED] + ([METHOD_ID] + Simulator.Statuses(4)))
  {
    var head := [MoveFrame(p), SampleFrame(), MethodFrame(i)];
    TypesAppend(head, Requests(4));
    assert Simulator.Types(head) == [MOVE_XY, SAMPLE_LOADED, METHOD_ID];
    RequestTypes(4);
    Regroup(Simulator.Statuses(4));
  }

  lemma Regroup(s: seq<int32>)
    ensures [MOVE_XY, SAMPLE_LOADED, METHOD_ID] + s == [MOVE_XY] + ([SAMPLE_LOADED] + ([METHOD_ID] + s))
  {
  }

  lemma RequestTypes(n: nat)
    ensures Simulator.Types(Requests(n)) == Simulator.Statuses(n)
  {
    var ts := Simulator.Types(Requests(n));
    forall k | 0 <= k < n ensures ts[k] == Simulator.Statuses(n)[k] {
      StatusesAre(n, k);
    }
  }

  lemma {:induction false} StatusesAre(n: nat, k: nat)
    requires k < n
    ensures Simulator.Statuses(n)[k] == REQUEST_STATUS
    decreases n
  {
    if k > 0 {
      StatusesAre(n - 1, k - 1);
    }
  }

  /** The frames of the points from index `i` on are answered with those
      points' answers. */
  lemma {:induction false} BatchReact(busy: int, points: seq<Point>, i: nat)
    requires Loadable(points) && i <= |points|
    ensures var s := Simulator.React(busy, Simulator.Types(BatchFrames(points, i)));
            s.replies == Answers(i, |points|) && s.busy == (if i < |points| then 0 else busy)
    decreases |points| - i
  {
    if i < |points| {
      var head := PointFrames(i, points[i]);
      var tail := BatchFrames(points, i + 1);
      TypesAppend(head, tail);
      Simulator.ReactAppend(busy, Simulator.Types(head), Simulator.Types(tail));
      PointReact(busy, i, points[i]);
      BatchReact(0, points, i + 1);
    }
  }

  lemma {:induction false} BatchDeliverable(points: seq<Point>, i: nat)
    requires Loadable(points) && i <= |points|
    ensures AllDeliverable(BatchFrames(points, i))
    decreases |points| - i
  {
    if i < |points| {
      var head := PointFrames(i, points[i]);
      assert AllDeliverable(head) by {
        assert head[..3] == [MoveFrame(points[i]), SampleFrame(), MethodFrame(i)];
        forall k | 0 <= k < 7 ensures Deliverable(head[k]) {
          if k >= 3 {
            assert head[k] == Requests(4)[k - 3];
          }
        }
      }
      BatchDeliverable(points, i + 1);
      DeliverableAppend(head, BatchFrames(points, i + 1));
    }
  }

  /** The simulator, given everything the controller sends, answers each
      point with that point's answers and the final OPERATION_COMPLETED
      with nothing, and then sees the connection close. */
  lemma SimulatorAnswered(points: seq<Point>)
    requires Loadable(points) && points != []
    ensures var sent := BatchFrames(points, 0) + [FinalFrame()];
            Simulator.Session(EncodeAll(sent), Simulator.Zeros(HeaderSize), 0)
            == Simulator.Served(|sent|, Answers(0, |points|), Simulator.Closed, 0)
  {
    var body := BatchFrames(points, 0);
    var sent := body + [FinalFrame()];
    SentSession(points);
    BatchThenFinal(points);
  }

  /** What the simulator does with the controller's bytes is what it does
      with the types of its frames. */
  lemma SentSession(points: seq<Point>)
    requires Loadable(points)
    ensures var body := BatchFrames(points, 0);
            Simulator.Session(EncodeAll(body + [FinalFrame()]), Simulator.Zeros(HeaderSize), 0)
            == Simulator.React(0, Simulator.Types(body) + [OPERATION_COMPLETED])
  {
    var body := BatchFrames(points, 0);
    var sent := body + [FinalFrame()];
    BatchDeliverable(points, 0);
    DeliverableAppend(body, [FinalFrame()]);
    Simulator.SessionFrames(sent, Simulator.Zeros(HeaderSize), 0);
    TypesAppend(body, [FinalFrame()]);
    assert Simulator.Types([FinalFrame()]) == [OPERATION_COMPLETED];
  }

  /** The final OPERATION_COMPLETED after the points is answered with
      nothing. */
  lemma BatchThenFinal(points: seq<Point>)
    requires Loadable(points) && points != []
    ensures var ts := Simulator.Types(BatchFrames(points, 0));
            Simulator.React(0, ts + [OPERATION_COMPLETED])
            == Simulator.Served(|ts| + 1, Answers(0, |points|), Simulator.Closed, 0)
  {
    var ts := Simulator.Types(BatchFrames(points, 0));
    BatchReact(0, points, 0);
    ThenFinal(0, ts);
  }

  /** OPERATION_COMPLETED from the controller gets no reply and leaves the
      count as it was. */
  lemma ThenFinal(busy: int, ts: seq<int32>)
    ensures var s := Simulator.React(busy, ts);
            Simulator.React(busy, ts + [OPERATION_COMPLETED]) == Simulator.Served(|ts| + 1, s.replies, Simulator.Closed, s.busy)
  {
    var s := Simulator.React(busy, ts);
    Simulator.ReactAppend(busy, ts, [OPERATION_COMPLETED]);
    assert [OPERATION_COMPLETED][1..] == [];
    assert Simulator.React(s.busy, [OPERATION_COMPLETED]) == Simulator.Served(1, [], Simulator.Closed, s.busy);
    assert s.replies + [] == s.replies;
  }

  // ----------------------------------------------------------------------
  // Both sides over the same bytes
  // ----------------------------------------------------------------------

  lemma {:induction false} AnswersDeliverable(i: nat, j: nat)
    requires i <= j
    ensures AllDeliverable(Answers(i, j))
    decreases j - i
  {
    if i < j {
      var a := PointAnswers();
      assert AllDeliverable(a) by {
        forall k | 0 <= k < 6 ensures Deliverable(a[k]) {
          if 2 <= k < 5 {
            assert a[k] == Simulator.Busies(3)[k - 2];
            BusiesAre(3, k - 2);
          }
        }
      }
      AnswersDeliverable(i + 1, j);
      DeliverableAppend(a, Answers(i + 1, j));
    }
  }

  lemma {:induction false} BusiesAre(n: nat, k: nat)
    requires k < n
    ensures Simulator.Busies(n)[k] == Simulator.BusyFrame()
    decreases n
  {
    if k > 0 {
      BusiesAre(n - 1, k - 1);
    }
  }

  /** The whole exchange. The simulator writes READY and then the answers
      to the points; the controller reads those bytes and runs the batch
      to completion; and the simulator, reading the bytes the controller
      wrote, replies with exactly the frames that follow READY. */
  lemma WholeExchange(points: seq<Point>, files: seq<Option<Measurement>>)
    requires Loadable(points) && points != []
    ensures var replies := [Simulator.ReadyFrame()] + Answers(0, |points|);
            var run := Workflow(points, files, Conversation(EncodeAll(replies)));
            var served := Simulator.Session(EncodeAll(run.sent), Simulator.Zeros(HeaderSize), 0);
            && run.outcome == BatchCompleted
            && run.sent == BatchFrames(points, 0) + [FinalFrame()]
            && run.completed == |points|
            && run.results == Traffic.Entries(points, files, 0, |points|)
            && [Simulator.ReadyFrame()] + served.replies == replies
            && served.end == Simulator.Closed
  {
    var replies := [Simulator.ReadyFrame()] + Answers(0, |points|);
    AnswersDeliverable(0, |points|);
    DeliverableAppend([Simulator.ReadyFrame()], Answers(0, |points|));
    ParseEncoded(replies, []);
    assert EncodeAll(replies) + [] == EncodeAll(replies);
    assert replies + [] == replies;
    HostAnswered(points, files, EndOfStream);
    SimulatorAnswered(points);
  }
}
