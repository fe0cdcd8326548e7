/** The gated writer: what reaches the output, and what a shutdown lets through. */
module ShutdownLaws {
  import opened ServerModel
  import opened Wrappers

  function Held(writer: Writer): seq<Response> {
    if writer.Holding? || writer.Writing? then [writer.frame] else []
  }

  /** Written frames, the frame being written, and while the sink is open all queued ones, in the order queued. */
  ghost predicate InOrder(s: Server) {
    && s.written <= s.sent
    && (s.writer.Writing? ==> s.written + [s.writer.frame] <= s.sent)
    && (s.open && !s.writer.Stopped? ==> s.sent == s.written + Held(s.writer) + s.queue)
  }

  /** The output side of the server. */
  predicate Queues(s: Server, t: Server) {
    && t.writer == s.writer && t.written == s.written && t.open == s.open && |t.sent| == |s.sent| + 1
    && t.sent == s.sent + [t.sent[|s.sent|]] && t.queue == s.queue + [t.sent[|s.sent|]]
  }

  predicate OutputKept(s: Server, t: Server) {
    t.writer == s.writer && t.written == s.written && t.open == s.open && t.sent == s.sent && t.queue == s.queue
  }

  /** What the frame loop does on the output side: it queues a frame or nothing. */
  lemma LoopOutput(s: Server, step: Step)
    requires step.Deliver? || step.OpenReturns?
    ensures Queues(s, Apply(s, step)) || OutputKept(s, Apply(s, step))
  {
    if step.Deliver? {
      ReceiveOutput(s, step.m);
      hide Receive;
    } else {
      hide ErrorAnswer;
    }
  }

  lemma ReceiveOutput(s: Server, m: Message)
    ensures Queues(s, Receive(s, m)) || OutputKept(s, Receive(s, m))
  {
    hide Judge;
  }

  /** What one step does on the output side: it queues a frame, moves the writer, or neither. */
  lemma OutputMoves(s: Server, step: Step)
    ensures
      var t := Apply(s, step);
      && (t.open ==> s.open)
      && (t.open == s.open || (t.writer == s.writer && t.written == s.written))
      && (|| (t.sent == s.sent && t.queue == s.queue)
          || Queues(s, t)
          || (step.Take? && t == s.(writer := Holding(s.queue[0]), queue := s.queue[1..])
              && s.writer.Idle? && s.queue != []))
      && ((step.Take? && t.queue != s.queue) || (t.writer == s.writer && t.written == s.written)
          || (t.written == s.written && t.writer.Stopped?)
          || (t.written == s.written && s.writer.Holding?
              && t.writer == if s.open then Writing(s.writer.frame) else Idle)
          || (s.writer.Writing? && t.written == s.written + [s.writer.frame] && t.writer.Idle?))
  {
    if step.Deliver? || step.OpenReturns? {
      LoopOutput(s, step);
      hide Apply;
    } else {
      hide Receive, FinishOpen;
    }
  }

  lemma QueueKeepsOrder(s: Server, t: Server)
    requires InOrder(s) && Queues(s, t)
    ensures InOrder(t)
  {
    var r := t.sent[|s.sent|];
    assert s.written + Held(s.writer) + (s.queue + [r]) == (s.written + Held(s.writer) + s.queue) + [r];
  }

  lemma TakeKeepsOrder(s: Server)
    requires InOrder(s) && s.writer.Idle? && s.queue != []
    ensures InOrder(s.(writer := Holding(s.queue[0]), queue := s.queue[1..]))
  {
    assert s.queue == [s.queue[0]] + s.queue[1..];
    assert s.written + [] + s.queue == s.written + [s.queue[0]] + s.queue[1..];
  }

  /** The writer passes the check, drops its frame, writes it out, or stops. */
  lemma WriterKeepsOrder(s: Server, t: Server)
    requires InOrder(s) && t.sent == s.sent && t.queue == s.queue && (t.open ==> s.open)
    requires
      || (t.writer == s.writer && t.written == s.written)
      || (t.written == s.written && t.writer.Stopped?)
      || (t.written == s.written && s.writer.Holding? && t.writer == if s.open then Writing(s.writer.frame) else Idle)
      || (s.writer.Writing? && t.written == s.written + [s.writer.frame] && t.writer.Idle?)
    requires t.open == s.open || (t.writer == s.writer && t.written == s.written)
    ensures InOrder(t)
  {
    if s.writer.Holding? || s.writer.Writing? {
      assert s.written + [s.writer.frame] + [] == s.written + [s.writer.frame];
      assert s.open && !s.writer.Stopped? ==> s.written + [s.writer.frame] <= s.sent;
    }
  }

  lemma StepKeepsOrder(s: Server, step: Step)
    requires InOrder(s)
    ensures InOrder(Apply(s, step))
  {
    OutputMoves(s, step);
    var t := Apply(s, step);
    hide Apply, InOrder;
    if Queues(s, t) {
      QueueKeepsOrder(s, t);
    } else if step.Take? && t.queue != s.queue {
      TakeKeepsOrder(s);
    } else {
      WriterKeepsOrder(s, t);
    }
  }

  /** In every run, what is written is an in-order front of what was sent. */
  lemma {:induction false} WrittenIsPrefix(steps: seq<Step>)
    ensures InOrder(Reach(steps))
  {
    if steps != [] {
      var front := steps[..|steps| - 1];
      WrittenIsPrefix(front);
      StepKeepsOrder(Reach(front), steps[|steps| - 1]);
    }
  }

  /** The frame that had passed the writer's open check. */
  function LastFrame(s: Server): seq<Response> {
    if s.writer.Writing? then [s.writer.frame] else []
  }

  /**
   Once the sink is closed, at most the one frame that had already passed the
   writer's open check is still written, whatever handlers go on to queue.
   */
  lemma {:induction false} ShutdownGate(s: Server, steps: seq<Step>)
    requires !s.open
    ensures
      var t := RunAll(s, steps);
      && !t.open
      && t.written + LastFrame(t) <= s.written + LastFrame(s)
      && s.written <= t.written
  {
    if steps != [] {
      var front, step := steps[..|steps| - 1], steps[|steps| - 1];
      ShutdownGate(s, front);
      GateStep(RunAll(s, front), step);
    }
  }

  lemma GateStep(s: Server, step: Step)
    requires !s.open
    ensures
      var t := Apply(s, step);
      && !t.open && t.written + LastFrame(t) <= s.written + LastFrame(s) && s.written <= t.written
  {
    if step.Deliver? || step.OpenReturns? {
      LoopOutput(s, step);
      hide Apply;
    } else {
      hide Receive, FinishOpen;
    }
  }

  /** The output is closed exactly from the shutdown on. */
  lemma {:induction false} ShutdownCloses(steps: seq<Step>)
    ensures Reach(steps).loop.Closed? <==> !Reach(steps).open
  {
    if steps != [] {
      var front := steps[..|steps| - 1];
      ShutdownCloses(front);
      OpenMoves(Reach(front), steps[|steps| - 1]);
      hide Apply;
    }
  }

  lemma OpenMoves(s: Server, step: Step)
    requires s.loop.Closed? <==> !s.open
    ensures Apply(s, step).loop.Closed? <==> !Apply(s, step).open
  {
    hide Judge, ErrorAnswer, FinalAnswer;
  }

  /** The shutdown steps, whatever comes between them, close the output and stop the writer; then nothing is written. */
  lemma {:induction false} StoppedIsSilent(s: Server, more: seq<Step>)
    requires s.writer.Stopped?
    ensures RunAll(s, more).writer.Stopped? && RunAll(s, more).written == s.written
  {
    if more != [] {
      StoppedIsSilent(s, more[..|more| - 1]);
      OutputMoves(RunAll(s, more[..|more| - 1]), more[|more| - 1]);
      hide Apply;
    }
  }

  lemma ShutdownSilences(s: Server, more: seq<Step>)
    requires s.loop.Ended?
    ensures
      var t := Apply(Apply(Apply(s, CancelAll), CloseSink), AbortWriter);
      && !t.open && t.loop.Closed? && t.writer.Stopped?
      && RunAll(t, more).written == s.written
  {
    StoppedIsSilent(Apply(Apply(Apply(s, CancelAll), CloseSink), AbortWriter), more);
  }

  /** A closed output takes a frame only from a handler that had passed its open check, and lets no other pass. */
  lemma ClosedTakesNoMore(s: Server, step: Step)
    requires !s.open
    ensures
      var t := Apply(s, step);
      && (t.sent != s.sent ==> step.Push? && step.task < |s.tasks| && s.tasks[step.task].stage.Passed?)
      && forall i | 0 <= i < |s.tasks| :: i < |t.tasks| && (t.tasks[i].stage.Passed? ==> s.tasks[i].stage.Passed?)
  {
    hide Judge, FinalAnswer, ErrorAnswer;
  }

  /** Every handler still unanswered when the input ends is told to cancel. */
  lemma ShutdownCancelsAll(s: Server)
    requires s.loop.Ended?
    ensures forall key | key in s.inflight :: s.inflight[key] in Apply(s, CancelAll).canceled
  {
    forall key | key in s.inflight ensures s.inflight[key] in Apply(s, CancelAll).canceled {
      assert s.inflight[key] in s.inflight.Values;
    }
  }
}
