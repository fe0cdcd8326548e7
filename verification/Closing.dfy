/** What a closed session still sends. */
module Closing {
  import opened Errors
  import opened Interleaving
  import opened RedisStore
  import opened RowWrites
  import opened Schedules
  import opened Wrappers

  predicate IsSentBy(e: Event, i: nat) {
    e.Sent? && e.who == i
  }

  /** How many commands a handler has sent. */
  function SentBy(log: seq<Event>, i: nat): nat {
    if log == [] then 0
    else SentBy(log[..|log| - 1], i) + if IsSentBy(log[|log| - 1], i) then 1 else 0
  }

  lemma SentBySnoc(log: seq<Event>, e: Event, i: nat)
    ensures SentBy(log + [e], i) == SentBy(log, i) + if IsSentBy(e, i) then 1 else 0
  {
    assert (log + [e])[..|log|] == log;
  }

  /** A handler that passed its closed check before the close and still waits for a live connection. */
  predicate MayStillSend(s: System, i: nat) {
    i < |s.handlers| && s.handlers[i].pc.Queued? && s.connected
  }

  lemma ClosedStep(s: System, step: Step, i: nat)
    requires s.closed
    ensures
      var t := Apply(s, step);
      && t.closed && (t.connected ==> s.connected)
      && SentBy(t.log, i) + (if MayStillSend(t, i) then 1 else 0)
         <= SentBy(s.log, i) + (if MayStillSend(s, i) then 1 else 0)
  {
    hide Execute, SentBy;
    var t := Apply(s, step);
    if t.log != s.log {
      SentBySnoc(s.log, t.log[|s.log|], i);
      assert t.log == s.log + [t.log[|s.log|]];
    }
  }

  /**
   After a close, whatever is still in flight, a handler sends at most one more
   command, and only if it had passed its closed check and the close found the
   connection busy; any other handler, later ones included, sends none.
   */
  lemma {:induction false} ClosedSends(s: System, steps: seq<Step>, i: nat)
    requires s.closed
    ensures
      var t := RunAll(s, steps);
      && t.closed
      && SentBy(t.log, i) + (if MayStillSend(t, i) then 1 else 0)
         <= SentBy(s.log, i) + (if MayStillSend(s, i) then 1 else 0)
  {
    if steps != [] {
      var front := steps[..|steps| - 1];
      ClosedSends(s, front, i);
      ClosedStep(RunAll(s, front), steps[|steps| - 1], i);
    }
  }

  /** A close that finds the connection idle stops every handler at once. */
  lemma IdleCloseSendsNothing(s: System, steps: seq<Step>, i: nat)
    requires s.lock.None?
    ensures SentBy(RunAll(Apply(s, Close), steps).log, i) == SentBy(s.log, i)
  {
    ClosedSends(Apply(s, Close), steps, i);
    SentGrows(Apply(s, Close), steps, i);
  }

  lemma {:induction false} SentGrows(s: System, steps: seq<Step>, i: nat)
    ensures SentBy(RunAll(s, steps).log, i) >= SentBy(s.log, i)
  {
    hide Execute, Resume, SentBy, CommandAt, MayStillSend;
    if steps != [] {
      var front := steps[..|steps| - 1];
      SentGrows(s, front, i);
      var mid, t := RunAll(s, front), RunAll(s, steps);
      if t.log != mid.log {
        SentBySnoc(mid.log, t.log[|mid.log|], i);
        assert t.log == mid.log + [t.log[|mid.log|]];
      }
    }
  }

  /** Once closed, a session refuses every command at its check, with a connection error and without sending. */
  lemma ClosedRefuses(s: System, i: nat)
    requires s.closed && i < |s.handlers| && s.handlers[i].pc.Checking?
    ensures
      var t := Apply(s, Check(i));
      && t.handlers[i].pc.Answer() == Some(Err(Connection)) && t.handlers[i].pc.IsOver()
      && t.log == s.log && t.store == s.store
  {
  }

  /** Nor does a released connection take the command of a handler that had passed the check. */
  lemma ReleasedRefuses(s: System, i: nat)
    requires !s.connected && s.lock.None? && i < |s.handlers| && s.handlers[i].pc.Queued?
    ensures
      var t := Apply(s, Acquire(i));
      t.handlers[i].pc.Answer() == Some(Err(Connection)) && t.log == s.log && t.store == s.store
  {
  }

  /** A run to a close that finds the connection busy and the second handler past its check. */
  lemma BusyClose(script: string, a: RowWrite, b: RowWrite) returns (steps: seq<Step>)
    ensures
      var s := Reach(script, map[], steps);
      s.closed && s.connected && s.lock == Some(0) && |s.handlers| == 2
      && s.handlers[0].pc.Awaiting? && s.handlers[1].pc.Queued?
  {
    var s0 := Initial(script, map[]);
    var start, check, end := [Start(a), Start(b)], [Check(0), Check(1)], [Acquire(0), Close];
    RunTwo(s0, Start(a), Start(b));
    var s2 := s0.(handlers := [Fresh(a), Fresh(b)]);
    assert RunAll(s0, start) == s2;
    RunTwo(s2, Check(0), Check(1));
    var s4 := s0.(handlers := [Fresh(a).(pc := Queued), Fresh(b).(pc := Queued)]);
    assert RunAll(s2, check) == s4;
    RunTwo(s4, Acquire(0), Close);
    RunAllConcat(s0, start, check);
    RunAllConcat(s0, start + check, end);
    steps := start + check + end;
  }

  /** The one extra command does happen. */
  lemma OneMoreCommandExample(script: string, a: RowWrite, b: RowWrite) returns (before: seq<Step>, after: seq<Step>)
    ensures
      var s := Reach(script, map[], before);
      s.closed && SentBy(RunAll(s, after).log, 1) == SentBy(s.log, 1) + 1
  {
    before := BusyClose(script, a, b);
    after := [Drop(0), Acquire(1)];
    var s := Reach(script, map[], before);
    RunTwo(s, Drop(0), Acquire(1));
    var e := Sent(1, s.handlers[1].Command());
    assert RunAll(s, after).log == s.log + [e];
    hide RunAll, Apply, CommandAt;
    SentBySnoc(s.log, e, 1);
  }
}
