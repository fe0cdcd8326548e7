/**
 Writes cut off by a cancel or a failed connection. What is left of one is the
 command it had sent, if any: it may still run, whole, later or never.
 */
module CutOff {
  import opened Errors
  import opened Interleaving
  import opened InterleavingLaws
  import opened Linearization
  import opened RedisStore
  import opened Replay
  import opened RowWrites
  import opened Schedules
  import opened Utf8
  import opened Wrappers

  // --- a commit not sent never runs -----------------------------------------------------------

  lemma OverSendsNothing(s: System, step: Step, i: nat)
    requires i < |s.handlers| && s.handlers[i].pc.IsOver()
    ensures
      var t := Apply(s, step);
      && i < |t.handlers| && t.handlers[i].pc == s.handlers[i].pc
      && (CommitSent(t.log, i) ==> CommitSent(s.log, i))
  {
    hide Execute, Resume;
    var t := Apply(s, step);
    if CommitSent(t.log, i) {
      var j :| CommitSentAt(t.log, i, j);
      assert CommitSentAt(s.log, i, j);
    }
  }

  lemma {:induction false} OverStaysOver(script: string, init: Store, steps: seq<Step>, more: seq<Step>, i: nat)
    requires i < |Reach(script, init, steps).handlers| && Reach(script, init, steps).handlers[i].pc.IsOver()
    ensures
      var s, t := Reach(script, init, steps), Reach(script, init, steps + more);
      && i < |t.handlers| && t.handlers[i].pc == s.handlers[i].pc
      && (CommitSent(t.log, i) ==> CommitSent(s.log, i))
  {
    hide Apply;
    if more == [] {
      assert steps + more == steps;
    } else {
      var front := more[..|more| - 1];
      OverStaysOver(script, init, steps, front, i);
      assert (steps + more)[..|steps + more| - 1] == steps + front;
      OverSendsNothing(Reach(script, init, steps + front), more[|more| - 1], i);
    }
  }

  /**
   A handler that is over, in whatever way, before its commit was sent never
   changes the store, in any continuation.
   */
  lemma UnsentChangesNothing(script: string, init: Store, steps: seq<Step>, more: seq<Step>, i: nat)
    requires
      var s := Reach(script, init, steps);
      i < |s.handlers| && s.handlers[i].pc.IsOver() && !CommitSent(s.log, i)
    ensures
      var t := Reach(script, init, steps + more);
      (forall j :: !CommitsAt(t.log, i, j)) && ChangedNothing(init, t.log, i)
  {
    var t := Reach(script, init, steps + more);
    OverStaysOver(script, init, steps, more, i);
    forall j ensures !CommitsAt(t.log, i, j) {
      if CommitsAt(t.log, i, j) {
        CommittedIsSent(script, init, steps + more, i, j);
      }
    }
    NoCommitChangedNothing(init, t.log, i);
  }

  lemma StopsBeforeCommit(script: string, init: Store, steps: seq<Step>, step: Step, i: nat)
    requires i < |Reach(script, init, steps).handlers|
    requires
      var h := Reach(script, init, steps).handlers[i];
      !h.pc.IsOver() && (h.phase.Commit? ==> h.pc.Checking? || h.pc.Queued?)
    requires
      var t := Reach(script, init, steps + [step]);
      i < |t.handlers| && (t.handlers[i].pc.Refused? || t.handlers[i].pc.Lost? || t.handlers[i].pc.Dropped?)
    ensures
      var t := Reach(script, init, steps + [step]);
      t.handlers[i].pc.IsOver() && !CommitSent(t.log, i)
  {
    assert (steps + [step])[..|steps|] == steps;
    ReachInv(script, init, steps);
    hide Execute, Resume, RunAll;
  }

  /**
   Cut off, or refused, before its commit is sent, at whatever read or wait, a
   write never happens, whatever comes after.
   */
  lemma EarlyStopNeverCommits(
    script: string, init: Store, steps: seq<Step>, step: Step, more: seq<Step>, i: nat
  )
    requires i < |Reach(script, init, steps).handlers|
    requires
      var h := Reach(script, init, steps).handlers[i];
      !h.pc.IsOver() && (h.phase.Commit? ==> h.pc.Checking? || h.pc.Queued?)
    requires
      var t := Reach(script, init, steps + [step]);
      i < |t.handlers| && (t.handlers[i].pc.Refused? || t.handlers[i].pc.Lost? || t.handlers[i].pc.Dropped?)
    ensures
      var u := Reach(script, init, steps + [step] + more);
      (forall j :: !CommitsAt(u.log, i, j)) && ChangedNothing(init, u.log, i)
  {
    StopsBeforeCommit(script, init, steps, step, i);
    UnsentChangesNothing(script, init, steps + [step], more, i);
  }

  // --- a commit sent may run ------------------------------------------------------------------

  /** Some continuation has the handler's commit run. */
  ghost predicate MayCommit(script: string, init: Store, steps: seq<Step>, i: nat) {
    exists more: seq<Step>, j: int :: CommitsAt(Reach(script, init, steps + more).log, i, j)
  }

  /**
   The exact condition: a write cut off by a cancel or a lost connection has
   taken effect, or still can, if and only if its commit had been sent.
   */
  lemma CutOffExactly(script: string, init: Store, steps: seq<Step>, i: nat)
    requires
      var s := Reach(script, init, steps);
      i < |s.handlers| && (s.handlers[i].pc.Lost? || s.handlers[i].pc.Dropped?)
    ensures CommitSent(Reach(script, init, steps).log, i) <==> MayCommit(script, init, steps, i)
  {
    var s := Reach(script, init, steps);
    ReachInv(script, init, steps);
    if !CommitSent(s.log, i) {
      forall more: seq<Step>, j: int ensures !CommitsAt(Reach(script, init, steps + more).log, i, j) {
        UnsentChangesNothing(script, init, steps, more, i);
      }
    } else if s.handlers[i].wire {
      assert (steps + [Run(i)])[..|steps|] == steps;
      assert CommitsAt(Reach(script, init, steps + [Run(i)]).log, i, |s.log|);
    } else {
      assert steps + [] == steps;
      var j :| CommitsAt(s.log, i, j);
      assert CommitsAt(Reach(script, init, steps + []).log, i, j);
    }
  }

  /**
   And it can change the store: while the command is on its way, any store whatever
   may be there when it runs, and where the write is allowed and its text still
   stands, running it is the whole write.
   */
  lemma SentMayStillWrite(script: string, init: Store, steps: seq<Step>, i: nat, found: Store)
    requires
      var s := Reach(script, init, steps);
      && i < |s.handlers| && s.handlers[i].wire && CommitSent(s.log, i)
      && Accepted(found, s.handlers[i].op) && ReadText(found, s.handlers[i].op) == s.handlers[i].expected
    ensures
      var s, t := Reach(script, init, steps), Reach(script, init, steps + [Disturb(found), Run(i)]);
      && t.store == Applied(found, s.handlers[i].op)
      && |t.handlers| == |s.handlers| && t.handlers[i].pc == s.handlers[i].pc
  {
    var s := Reach(script, init, steps);
    var h := s.handlers[i];
    ReachInv(script, init, steps);
    RunAllConcat(Initial(script, init), steps, [Disturb(found), Run(i)]);
    RunTwo(s, Disturb(found), Run(i));
    CommitRuns(Apply(s, Disturb(found)), i);
    hide Execute, RunAll;
  }

  lemma CommitRuns(s: System, i: nat)
    requires i < |s.handlers| && s.handlers[i].wire && s.handlers[i].phase.Commit?
    requires Accepted(s.store, s.handlers[i].op) && ReadText(s.store, s.handlers[i].op) == s.handlers[i].expected
    ensures
      var t := Apply(s, Run(i));
      && t.store == Applied(s.store, s.handlers[i].op)
      && |t.handlers| == |s.handlers| && t.handlers[i].pc == s.handlers[i].pc
  {
    AcceptedCommits(s.store, s.handlers[i].op);
    hide Execute, Accepted, ReadText;
  }

  // --- and nobody can tell --------------------------------------------------------------------

  /** Left alone on a store where the write is allowed, a handler comes to its commit with the text it edits. */
  lemma {:induction false} LoneHandlerCommits(s: System, i: nat) returns (steps: seq<Step>)
    requires Idle(s, i) && ShapeOk(s.handlers[i]) && Accepted(s.store, s.handlers[i].op)
    requires s.handlers[i].expected.Some? ==> s.handlers[i].expected == ReadText(s.store, s.handlers[i].op)
    decreases Rank(s.handlers[i].phase)
    ensures
      var h, t := s.handlers[i], RunAll(s, steps);
      && Idle(t, i) && |t.handlers| == |s.handlers| && t.store == s.store && t.handlers[i].op == h.op
      && t.handlers[i].phase.Commit? && t.handlers[i].expected == ReadText(s.store, h.op)
      && ShapeOk(t.handlers[i]) && t.script == s.script && forall step | step in steps :: !step.Disturb?
  {
    var h := s.handlers[i];
    if h.phase.Commit? {
      steps := [];
    } else {
      OneCommand(s, i);
      ReadPasses(s.script, s.store, h);
      steps := [Check(i), Acquire(i)] + [Run(i), Receive(i)];
      var t := RunAll(s, steps);
      var more := LoneHandlerCommits(t, i);
      RunAllConcat(s, steps, more);
      steps := steps + more;
    }
  }

  /** On a store where the write is allowed, every read passes and leaves the store. */
  lemma ReadPasses(script: string, store: Store, h: Handler)
    requires ShapeOk(h) && Accepted(store, h.op) && !h.phase.Commit?
    requires h.expected.Some? ==> h.expected == ReadText(store, h.op)
    ensures
      var after := Execute(store, h.Command());
      var next := Resume(script, h, after.reply);
      && after.store == store && next.pc.Checking? && next.wire == h.wire && next.reply.None? && next.op == h.op
      && ShapeOk(next) && Rank(next.phase) < Rank(h.phase)
      && (next.expected.Some? ==> next.expected == ReadText(store, h.op))
  {
    EncodeInjective(h.op.key, h.op.Destination());
  }

  lemma RunOne(s: System, steps: seq<Step>, step: Step)
    ensures RunAll(s, steps + [step]) == Apply(RunAll(s, steps), step)
  {
    assert (steps + [step])[..|steps|] == steps;
  }

  /** A cancel, or a connection that fails under the handler. */
  predicate CutsOff(step: Step, i: nat) {
    step == Drop(i) || step == Lose(i)
  }

  lemma CutOffAfterSending(s: System, i: nat, cut: Step)
    requires Idle(s, i) && CutsOff(cut, i)
    ensures
      var t := RunAll(s, [Check(i), Acquire(i)] + [cut]);
      && |t.handlers| == |s.handlers| && t.store == s.store
      && t.handlers[i] == s.handlers[i].(pc := if cut.Drop? then Dropped else Lost, wire := true)
  {
    RunTwo(s, Check(i), Acquire(i));
    RunAllConcat(s, [Check(i), Acquire(i)], [cut]);
    assert [cut][..0] == [];
  }

  // --- a cancel after the reply ---------------------------------------------------------------

  /** Two states that differ in one handler only. */
  predicate SameBut(s: System, t: System, i: nat) {
    && s.(handlers := []) == t.(handlers := []) && |s.handlers| == |t.handlers|
    && forall k | 0 <= k < |s.handlers| && k != i :: s.handlers[k] == t.handlers[k]
  }

  predicate IsDone(s: System, i: nat) {
    i < |s.handlers| && s.handlers[i].pc.IsOver() && !s.handlers[i].wire
  }

  lemma SameButStep(s: System, t: System, step: Step, i: nat)
    requires SameBut(s, t, i) && IsDone(s, i) && IsDone(t, i)
    ensures SameBut(Apply(s, step), Apply(t, step), i)
    ensures IsDone(Apply(s, step), i) && Apply(s, step).handlers[i] == s.handlers[i]
    ensures IsDone(Apply(t, step), i) && Apply(t, step).handlers[i] == t.handlers[i]
  {
    hide Execute, Resume, CommandAt;
    if step.Start? || step.Close? || step.Disturb? {
      hide ApplyTo;
    } else if step.who == i {
      DoneStays(s, step, i);
      DoneStays(t, step, i);
      hide Apply;
    } else if step.who < |s.handlers| {
      SameButOther(s, t, step, i);
      hide ApplyTo;
    }
  }

  lemma DoneStays(s: System, step: Step, i: nat)
    requires IsDone(s, i) && !step.Start? && !step.Close? && !step.Disturb? && step.who == i
    ensures Apply(s, step) == s
  {
  }

  lemma SameButOther(s: System, t: System, step: Step, i: nat)
    requires SameBut(s, t, i) && IsDone(s, i) && IsDone(t, i)
    requires !step.Start? && !step.Close? && !step.Disturb? && step.who != i && step.who < |s.handlers|
    ensures
      var s', t' := ApplyTo(s, step, step.who), ApplyTo(t, step, step.who);
      SameBut(s', t', i) && s'.handlers[i] == s.handlers[i] && t'.handlers[i] == t.handlers[i]
  {
    hide Execute, Resume, CommandAt;
  }

  lemma {:induction false} SameButRun(s: System, t: System, steps: seq<Step>, i: nat)
    requires SameBut(s, t, i) && IsDone(s, i) && IsDone(t, i)
    ensures SameBut(RunAll(s, steps), RunAll(t, steps), i)
    ensures IsDone(RunAll(s, steps), i) && RunAll(s, steps).handlers[i] == s.handlers[i]
    ensures IsDone(RunAll(t, steps), i) && RunAll(t, steps).handlers[i] == t.handlers[i]
  {
    hide Apply, SameBut, IsDone;
    if steps != [] {
      var front := steps[..|steps| - 1];
      SameButRun(s, t, front, i);
      SameButStep(RunAll(s, front), RunAll(t, front), steps[|steps| - 1], i);
    }
  }

  /**
   A write that completed and whose answer a late cancel replaces is a handler
   dropped just before it received that reply: in every continuation the store,
   the log and all other handlers are the same.
   */
  lemma LateCancelIsADrop(s: System, i: nat, more: seq<Step>)
    requires i < |s.handlers| && s.handlers[i].pc.Awaiting? && s.handlers[i].reply.Some? && !s.handlers[i].wire
    requires Resume(s.script, s.handlers[i], s.handlers[i].reply.value).pc.Ended?
    ensures
      var answered, dropped := RunAll(Apply(s, Receive(i)), more), RunAll(Apply(s, Drop(i)), more);
      && SameBut(answered, dropped, i) && i < |answered.handlers|
      && answered.handlers[i].pc.Ended? && dropped.handlers[i].pc.Dropped?
  {
    SameButRun(Apply(s, Receive(i)), Apply(s, Drop(i)), more, i);
    hide RunAll;
  }

  /**
   A cut off write does not tell whether it happened. For every write and every
   store where it is allowed there is a run that cuts the handler off after its
   commit was sent; the store is the old one, and one more step, the sent command
   running after all, makes it the written one. The caller gets the same answer in
   both: none after a cancel, a lost connection otherwise.
   */
  lemma CanceledEitherWay(script: string, store: Store, op: RowWrite, cut: Step) returns (steps: seq<Step>)
    requires Accepted(store, op) && CutsOff(cut, 0)
    ensures
      var s, t := Reach(script, store, steps), Reach(script, store, steps + [Run(0)]);
      && |s.handlers| == |t.handlers| == 1
      && s.handlers[0].pc == t.handlers[0].pc == (if cut.Drop? then Dropped else Lost)
      && s.store == store && t.store == Applied(store, op)
  {
    var init := Initial(script, store);
    var s1 := Apply(init, Start(op));
    assert [Start(op)][..0] == [] && RunAll(init, [Start(op)]) == s1;
    var more := LoneHandlerCommits(s1, 0);
    var send := [Check(0), Acquire(0)] + [cut];
    CutOffAfterSending(RunAll(s1, more), 0, cut);
    RunAllConcat(init, [Start(op)], more);
    RunAllConcat(init, [Start(op)] + more, send);
    steps := [Start(op)] + more + send;
    RunOne(init, steps, Run(0));
    hide RunAll, Apply;
    CommitRuns(RunAll(init, steps), 0);
  }
}
