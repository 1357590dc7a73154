/** What `startWorkflow` sends and reads, stated over the workflow as a
    function of the instrument's replies: how the status loop ends, the
    order of one point's frames, which points are moved to, which summary
    rows are kept, and the frames that end a run. */
module Traffic {
  import opened Bytes
  import opened Wrappers
  import opened Messages
  import opened Catalog
  import opened Host
  import Text

  // ----------------------------------------------------------------------
  // The status loop
  // ----------------------------------------------------------------------

  /** A polling reply that ends the status loop: 27 or 12. */
  predicate Stops(f: Frame) {
    f.typeId == OPERATION_COMPLETED || f.typeId == ERROR
  }

  /** When the first reply that stops the loop is at index `n`, exactly
      `n + 1` status requests are sent, the loop ends as that reply says,
      and the replies after it are left unread. */
  lemma {:induction false} PollStops(t: Talk, n: nat)
    requires n < |t.replies| && Stops(t.replies[n])
    requires forall k :: 0 <= k < n ==> !Stops(t.replies[k])
    ensures Poll(t) == Polling(n + 1, if t.replies[n].typeId == OPERATION_COMPLETED then PointDone else Abort,
                               Talk(t.replies[n + 1..], t.end))
    decreases n
  {
    if n > 0 {
      var r := Rest(t);
      assert r.replies == t.replies[1..];
      assert r.replies[n - 1] == t.replies[n];
      assert t.replies[1..][n..] == t.replies[n + 1..];
      PollStops(r, n - 1);
    }
  }

  /** When no reply stops the loop, every reply is answered by another
      request and the read after the last one ends the point. */
  lemma {:induction false} PollRunsOut(t: Talk)
    requires forall k :: 0 <= k < |t.replies| ==> !Stops(t.replies[k])
    ensures Poll(t) == Polling(|t.replies| + 1, Broken(t.end), Talk([], t.end))
    decreases |t.replies|
  {
    if t.replies != [] {
      var r := Rest(t);
      assert forall k :: 0 <= k < |r.replies| ==> r.replies[k] == t.replies[k + 1];
      PollRunsOut(r);
    }
  }

  /** Every status request but the last one the fault ended is answered
      by exactly one reply. */
  lemma {:induction false} PollConsumes(t: Talk)
    ensures var p := Poll(t);
            1 <= p.polls
            && (p.exit.Broken? ==> p.polls == |t.replies| + 1 && p.exit.fault == t.end
                                   && p.rest == Talk([], t.end))
            && (!p.exit.Broken? ==> p.polls <= |t.replies|
                                    && p.rest == Talk(t.replies[p.polls..], t.end))
    decreases |t.replies|
  {
    if t.replies != [] && !Stops(t.replies[0]) {
      var r := Rest(t);
      PollConsumes(r);
      var p := Poll(r);
      if !p.exit.Broken? {
        assert t.replies[1..][p.polls..] == t.replies[p.polls + 1..];
      }
    }
  }

  // ----------------------------------------------------------------------
  // One point
  // ----------------------------------------------------------------------

  /** Steps C and D send METHOD_ID and then only status requests, one per
      reply read; a failed read ends them with nothing left to read. */
  lemma DispatchOrder(i: nat, t: Talk)
    requires i < MaxInt32
    ensures var d := Dispatch(i, t);
            2 <= |d.sent| && d.sent[0] == MethodFrame(i)
            && (forall k :: 1 <= k < |d.sent| ==> d.sent[k] == StatusFrame())
            && (d.exit.Failed? ==> |d.sent| == |t.replies| + 2 && d.exit.fault == t.end
                                   && d.rest == Talk([], t.end))
            && (!d.exit.Failed? ==> |d.sent| <= |t.replies| + 1
                                    && d.rest == Talk(t.replies[|d.sent| - 1..], t.end))
  {
    PollConsumes(t);
  }

  /** The frames sent for one point come in the fixed order MOVE_XY,
      SAMPLE_LOADED, METHOD_ID with "Batch_Test_Point_" and the point's
      1-based number, then only REQUEST_STATUS; MOVE_XY and SAMPLE_LOADED
      are each followed by exactly one read of any type, METHOD_ID by
      none, and each status request by one: with no reply only MOVE_XY is
      sent, with one reply MOVE_XY and SAMPLE_LOADED, and a run that fails
      later has sent two frames more than it read replies. */
  lemma PointOrder(i: nat, p: Point, t: Talk)
    requires i < MaxInt32 && Sendable(Text.Coordinates(p.x, p.y))
    ensures var pr := RunPoint(i, p, t);
            1 <= |pr.sent| && pr.sent[0] == MoveFrame(p)
            && (|t.replies| >= 2 ==>
                  |pr.sent| >= 4 && pr.sent[1] == SampleFrame() && pr.sent[2] == MethodFrame(i)
                  && pr.sent[2].message == "Batch_Test_Point_" + Text.DecimalString(i + 1)
                  && (forall k :: 3 <= k < |pr.sent| ==> pr.sent[k] == StatusFrame())
                  && (pr.exit.Failed? ==> |pr.sent| == |t.replies| + 2))
            && (|t.replies| == 0 ==> pr.sent == [MoveFrame(p)])
            && (|t.replies| == 1 ==> pr.sent == [MoveFrame(p), SampleFrame()])
            && (pr.exit.Failed? ==> pr.exit.fault == t.end && pr.rest == Talk([], t.end))
            && (!pr.exit.Failed? ==> |pr.sent| <= |t.replies| + 1
                                     && pr.rest == Talk(t.replies[|pr.sent| - 1..], t.end))
  {
    if |t.replies| >= 2 {
      DispatchedOrder(i, p, t);
    } else if |t.replies| == 1 {
      assert Rest(t).replies == [];
    }
  }

  lemma DispatchedOrder(i: nat, p: Point, t: Talk)
    requires i < MaxInt32 && Sendable(Text.Coordinates(p.x, p.y)) && |t.replies| >= 2
    ensures var pr := RunPoint(i, p, t);
            |pr.sent| >= 4 && pr.sent[0] == MoveFrame(p)
            && pr.sent[1] == SampleFrame() && pr.sent[2] == MethodFrame(i)
            && (forall k :: 3 <= k < |pr.sent| ==> pr.sent[k] == StatusFrame())
            && (pr.exit.Failed? ==> |pr.sent| == |t.replies| + 2)
            && (pr.exit.Failed? ==> pr.exit.fault == t.end && pr.rest == Talk([], t.end))
            && (!pr.exit.Failed? ==> |pr.sent| <= |t.replies| + 1
                                     && pr.rest == Talk(t.replies[|pr.sent| - 1..], t.end))
  {
    var r := Rest(Rest(t));
    assert r.replies == t.replies[2..];
    DispatchOrder(i, r);
    var d := Dispatch(i, r);
    var sent := [MoveFrame(p), SampleFrame()] + d.sent;
    assert forall k :: 2 <= k < |sent| ==> sent[k] == d.sent[k - 2];
    if !d.exit.Failed? {
      assert t.replies[2..][|d.sent| - 1..] == t.replies[|sent| - 1..];
    }
  }

  // ----------------------------------------------------------------------
  // The point loop
  // ----------------------------------------------------------------------

  /** The summary rows of the points at indices `i` up to `j`, in visit
      order: at most one each. */
  function Entries(points: seq<Point>, files: seq<Option<Measurement>>, i: nat, j: nat): (r: seq<TestResult>)
    requires i <= j <= |points|
    ensures |r| <= j - i
    decreases j - i
  {
    if i == j then [] else ResultEntry(points[i], FileFor(files, i)) + Entries(points, files, i + 1, j)
  }

  /** The MOVE_XY frames among `fs`, in order. */
  function Moves(fs: seq<Frame>): seq<Frame>
    decreases |fs|
  {
    if fs == [] then []
    else (if fs[0].typeId == MOVE_XY then [fs[0]] else []) + Moves(fs[1..])
  }

  lemma {:induction false} MovesAppend(fs: seq<Frame>, gs: seq<Frame>)
    ensures Moves(fs + gs) == Moves(fs) + Moves(gs)
    decreases |fs|
  {
    if fs == [] {
      assert fs + gs == gs;
    } else {
      assert (fs + gs)[1..] == fs[1..] + gs;
      MovesAppend(fs[1..], gs);
    }
  }

  /** MOVE_XY for the points at indices `i` up to `j`, in order. */
  function MovesFor(points: seq<Point>, i: nat, j: nat): (r: seq<Frame>)
    requires Loadable(points) && i <= j <= |points|
    ensures |r| == j - i
    decreases j - i
  {
    if i == j then [] else [MoveFrame(points[i])] + MovesFor(points, i + 1, j)
  }

  /** A frame of the point loop: MOVE_XY, SAMPLE_LOADED, METHOD_ID or
      REQUEST_STATUS, never the batch's OPERATION_COMPLETED. */
  predicate PointFrame(f: Frame) {
    f.typeId == MOVE_XY || f.typeId == SAMPLE_LOADED || f.typeId == METHOD_ID
    || f.typeId == REQUEST_STATUS
  }

  /** One point's frames: one MOVE_XY first, then none. */
  lemma PointMoves(i: nat, p: Point, t: Talk)
    requires i < MaxInt32 && Sendable(Text.Coordinates(p.x, p.y))
    ensures var pr := RunPoint(i, p, t);
            Moves(pr.sent) == [MoveFrame(p)]
            && forall k :: 0 <= k < |pr.sent| ==> PointFrame(pr.sent[k])
  {
    PointOrder(i, p, t);
    var pr := RunPoint(i, p, t);
    var tail := pr.sent[1..];
    assert pr.sent == [MoveFrame(p)] + tail;
    NoMoves(tail);
    MovesAppend([MoveFrame(p)], tail);
    assert Moves([MoveFrame(p)]) == [MoveFrame(p)] + Moves([]);
  }

  lemma {:induction false} NoMoves(fs: seq<Frame>)
    requires forall k :: 0 <= k < |fs| ==> fs[k].typeId != MOVE_XY
    ensures Moves(fs) == []
    decreases |fs|
  {
    if fs != [] {
      NoMoves(fs[1..]);
    }
  }

  /** The index just past the last point a run from `i` completed. */
  function Finished(i: nat, v: Run): nat {
    i + v.completed
  }

  /** The index just past the last point a run from `i` moved to: the
      completed points and, unless all were done, the one that failed or
      aborted. */
  function Reach(i: nat, v: Run): nat {
    Finished(i, v) + (if v.outcome == BatchCompleted then 0 else 1)
  }

  /** The point loop from index `i` completes a prefix of the points and
      keeps exactly their summary rows; it ends in one of three ways, and
      completes the batch exactly when it reaches the last point. */
  lemma {:induction false} VisitsShape(points: seq<Point>, files: seq<Option<Measurement>>, i: nat, t: Talk, v: Run)
    requires Loadable(points) && i <= |points| && v == Visits(points, files, i, t)
    ensures Reach(i, v) <= |points|
    ensures v.outcome == BatchCompleted <==> Finished(i, v) == |points|
    ensures v.outcome.BatchCompleted? || v.outcome.InstrumentError? || v.outcome.TransportFailed?
    ensures v.results == Entries(points, files, i, Finished(i, v))
    decreases |points| - i
  {
    if i < |points| {
      assert v == Visit(points, files, i, t);
      var pr := RunPoint(i, points[i], t);
      if pr.exit.Done? {
        var r := Visits(points, files, i + 1, pr.rest);
        VisitsShape(points, files, i + 1, pr.rest, r);
        assert Finished(i, v) == Finished(i + 1, r);
      }
    }
  }

  /** The point loop from index `i` sends MOVE_XY to every point it
      completes and, unless all were done, to the one that failed or
      aborted, in order and to no other point; every frame it sends is a
      point-loop frame. */
  lemma {:induction false} VisitsMoves(points: seq<Point>, files: seq<Option<Measurement>>, i: nat, t: Talk, v: Run)
    requires Loadable(points) && i <= |points| && v == Visits(points, files, i, t)
    ensures Reach(i, v) <= |points| && Moves(v.sent) == MovesFor(points, i, Reach(i, v))
    ensures forall k :: 0 <= k < |v.sent| ==> PointFrame(v.sent[k])
    decreases |points| - i
  {
    VisitsShape(points, files, i, t, v);
    if i < |points| {
      var pr := RunPoint(i, points[i], t);
      PointMoves(i, points[i], t);
      assert v == Visit(points, files, i, t);
      if pr.exit.Done? {
        var r := Visits(points, files, i + 1, pr.rest);
        VisitsMoves(points, files, i + 1, pr.rest, r);
        assert Reach(i, v) == Reach(i + 1, r);
        MovesJoin(points, i, Reach(i, v), pr.sent, r.sent, v.sent);
      } else {
        assert MovesFor(points, i + 1, i + 1) == [];
      }
    }
  }

  /** One point's frames followed by the loop's from the next index on. */
  lemma MovesJoin(points: seq<Point>, i: nat, k: nat, ps: seq<Frame>, rs: seq<Frame>, vs: seq<Frame>)
    requires Loadable(points) && i < k <= |points| && vs == ps + rs
    requires Moves(ps) == [MoveFrame(points[i])] && Moves(rs) == MovesFor(points, i + 1, k)
    requires forall n :: 0 <= n < |ps| ==> PointFrame(ps[n])
    requires forall n :: 0 <= n < |rs| ==> PointFrame(rs[n])
    ensures Moves(vs) == MovesFor(points, i, k)
    ensures forall n :: 0 <= n < |vs| ==> PointFrame(vs[n])
  {
    MovesAppend(ps, rs);
  }

  // ----------------------------------------------------------------------
  // The whole run
  // ----------------------------------------------------------------------

  /** The batch starts exactly when the handshake frame is READY and the
      point list is not empty; before that nothing is sent and no summary
      row is kept, after it the first frame is MOVE_XY to the first point.
      A first frame of another type fails the handshake. */
  lemma StartGate(points: seq<Point>, files: seq<Option<Measurement>>, t: Talk)
    requires Loadable(points)
    ensures var w := Workflow(points, files, t);
            (w.started <==> t.replies != [] && t.replies[0].typeId == READY && points != [])
            && (w.outcome == HandshakeFailed <==> t.replies != [] && t.replies[0].typeId != READY)
            && (w.outcome == NoPoints <==> t.replies != [] && t.replies[0].typeId == READY && points == [])
            && (!w.started ==> w.sent == [] && w.results == [])
            && (w.started ==> w.sent != [] && w.sent[0] == MoveFrame(points[0]))
  {
    if t.replies != [] && t.replies[0].typeId == READY && points != [] {
      var r := Rest(t);
      var v := Visits(points, files, 0, r);
      VisitsShape(points, files, 0, r, v);
      assert v == Visit(points, files, 0, r);
      var pr := RunPoint(0, points[0], r);
      PointOrder(0, points[0], r);
      if pr.exit.Done? {
        assert v.sent == pr.sent + Visits(points, files, 1, pr.rest).sent;
      }
    }
  }

  /** A batch that completes moves to every point in order, keeps every
      point's summary row, and sends the final OPERATION_COMPLETED last and
      only then. */
  lemma BatchEnd(points: seq<Point>, files: seq<Option<Measurement>>, t: Talk)
    requires Loadable(points)
    ensures var w := Workflow(points, files, t);
            w.outcome == BatchCompleted ==>
              w.started && w.completed == |points|
              && w.results == Entries(points, files, 0, |points|)
              && |w.sent| >= 1 && w.sent[|w.sent| - 1] == FinalFrame()
              && (forall k :: 0 <= k < |w.sent| - 1 ==> w.sent[k].typeId != OPERATION_COMPLETED)
              && Moves(w.sent) == MovesFor(points, 0, |points|)
  {
    var w := Workflow(points, files, t);
    if w.outcome == BatchCompleted {
      assert t.replies != [] && t.replies[0].typeId == READY && points != [];
      var r := Rest(t);
      var v := Visits(points, files, 0, r);
      assert w == Batch(points, files, r);
      VisitsShape(points, files, 0, r, v);
      VisitsMoves(points, files, 0, r, v);
      assert w.sent == v.sent + [FinalFrame()];
      MovesAppend(v.sent, [FinalFrame()]);
      assert Moves([FinalFrame()]) == [];
      assert Reach(0, v) == |points|;
    }
  }

  /** An ERROR reply while polling ends the run: no MOVE_XY is sent for any
      point after the one that was being measured, no OPERATION_COMPLETED
      is sent at all, and the summary keeps the rows of the points before
      it. (The summary is then not written: `StartWorkflow` adds a report
      only on `BatchCompleted`.) */
  lemma ErrorEnd(points: seq<Point>, files: seq<Option<Measurement>>, t: Talk)
    requires Loadable(points)
    ensures var w := Workflow(points, files, t);
            w.outcome == InstrumentError ==>
              w.started && w.completed < |points|
              && w.results == Entries(points, files, 0, w.completed)
              && (forall k :: 0 <= k < |w.sent| ==> w.sent[k].typeId != OPERATION_COMPLETED)
              && Moves(w.sent) == MovesFor(points, 0, w.completed + 1)
  {
    var w := Workflow(points, files, t);
    if w.outcome == InstrumentError {
      assert t.replies != [] && t.replies[0].typeId == READY && points != [];
      var r := Rest(t);
      var v := Visits(points, files, 0, r);
      assert w == v;
      VisitsShape(points, files, 0, r, v);
      VisitsMoves(points, files, 0, r, v);
      assert Reach(0, v) == w.completed + 1;
    }
  }
}
