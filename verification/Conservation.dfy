/** Counting keys over whole runs of interleaved row writes. */
module Conservation {
  import opened Errors
  import opened Interleaving
  import opened InterleavingLaws
  import opened Linearization
  import opened RedisStore
  import opened Replay
  import opened RowWrites
  import opened Wrappers

  /** Keys added by the commands handler `i` ran. */
  function AddedBy(log: seq<Event>, i: nat): int {
    if log == [] then 0
    else AddedBy(log[..|log| - 1], i) + AddedAt(log[|log| - 1], i)
  }

  function AddedAt(e: Event, i: nat): int {
    if e.Executed? && e.who == i then KeysAdded(e.command, e.reply) else 0
  }

  /** The sum of the handlers' shares, for the first `n` handlers. */
  function AddedByAll(log: seq<Event>, n: nat): int {
    if n == 0 then 0 else AddedByAll(log, n - 1) + AddedBy(log, n - 1)
  }

  lemma {:induction false} AddedByAllSnoc(log: seq<Event>, e: Event, n: nat)
    ensures AddedByAll(log + [e], n) ==
            AddedByAll(log, n) + if e.Executed? && e.who < n then KeysAdded(e.command, e.reply) else 0
  {
    if n > 0 {
      AddedByAllSnoc(log, e, n - 1);
      assert (log + [e])[..|log|] == log;
    }
  }

  lemma {:induction false} AddedNothing(n: nat)
    ensures AddedByAll([], n) == 0
  {
    if n > 0 {
      AddedNothing(n - 1);
    }
  }

  lemma CountOfEvent(init: Store, s: System, j: nat)
    requires j < |s.log| && LogOk(init, s) && !s.log[j].Outside?
    ensures
      var e := s.log[j];
      |Before(init, s.log, j + 1)| ==
      |Before(init, s.log, j)| + if e.Executed? then KeysAdded(e.command, e.reply) else 0
  {
    var e := s.log[j];
    if e.Executed? {
      AfterEvent(init, s.log, j);
      KeyCount(Before(init, s.log, j), e.command);
    } else {
      assert s.log[..j + 1][..j] == s.log[..j];
    }
  }

  lemma NothingCounted(init: Store, s: System)
    ensures |Before(init, s.log, 0)| == |init| + AddedByAll(s.log[..0], |s.handlers|)
  {
    AddedNothing(|s.handlers|);
  }

  /** With no outside writer, the store grows by what the logged commands added. */
  lemma {:induction false} CountOfPrefix(init: Store, s: System, n: nat)
    requires n <= |s.log| && LogOk(init, s) && NoOutsideWriters(s.log)
    requires forall j | 0 <= j < |s.log| && s.log[j].Executed? :: s.log[j].who < |s.handlers|
    ensures |Before(init, s.log, n)| == |init| + AddedByAll(s.log[..n], |s.handlers|)
  {
    hide Before, AddedByAll, LogOk, KeysAdded;
    if n == 0 {
      NothingCounted(init, s);
    } else {
      var e := s.log[n - 1];
      assert e in s.log;
      CountOfPrefix(init, s, n - 1);
      CountOfEvent(init, s, n - 1);
      assert s.log[..n] == s.log[..n - 1] + [e];
      AddedByAllSnoc(s.log[..n - 1], e, |s.handlers|);
    }
  }

  /** A handler's share is what its one commit added. */
  lemma {:induction false} ShareIsCommit(log: seq<Event>, i: nat, j: int, n: nat)
    requires n <= |log|
    requires CommitsAt(log, i, j) && forall k | CommitsAt(log, i, k) :: k == j
    ensures AddedBy(log[..n], i) == if j < n then KeysAdded(log[j].command, log[j].reply) else 0
  {
    if n > 0 {
      ShareIsCommit(log, i, j, n - 1);
      assert log[..n][..n - 1] == log[..n - 1];
      assert n - 1 != j ==> !CommitsAt(log, i, n - 1);
    }
  }

  lemma {:induction false} NoCommitNoShare(log: seq<Event>, i: nat, n: nat)
    requires n <= |log| && forall k :: !CommitsAt(log, i, k)
    ensures AddedBy(log[..n], i) == 0
  {
    if n > 0 {
      NoCommitNoShare(log, i, n - 1);
      assert log[..n][..n - 1] == log[..n - 1];
      assert !CommitsAt(log, i, n - 1);
    }
  }

  /** What an answered write says it did to the number of keys. */
  function ReportedShare(h: Handler): int {
    if !h.pc.Ended? || h.pc.outcome.Err? then 0
    else match h.op
      case Insert(_, _) => 1
      case Delete(_) => 0 - h.pc.outcome.value.rowsAffected
      case Update(_, _, _) => 0
  }

  function ReportedTotal(handlers: seq<Handler>, n: nat): int
    requires n <= |handlers|
  {
    if n == 0 then 0 else ReportedTotal(handlers, n - 1) + ReportedShare(handlers[n - 1])
  }

  lemma ShareIsReported(script: string, init: Store, steps: seq<Step>, i: nat)
    requires i < |Reach(script, init, steps).handlers| && AllSettled(Reach(script, init, steps))
    ensures
      var s := Reach(script, init, steps);
      AddedBy(s.log, i) == ReportedShare(s.handlers[i])
  {
    var s := Reach(script, init, steps);
    ReachInv(script, init, steps);
    ReachLogOk(script, init, steps);
    assert s.log[..|s.log|] == s.log;
    if j :| CommitsAt(s.log, i, j) {
      CommittedIsSent(script, init, steps, i, j);
      assert CommitOk(s, i, j);
      ShareIsCommit(s.log, i, j, |s.log|);
      CommitShare(script, init, steps, i, j);
    } else {
      NoCommitNoShare(s.log, i, |s.log|);
      if s.handlers[i].pc.Ended? && s.handlers[i].pc.outcome.Ok? {
        var j := SuccessLinearizes(script, init, steps, i);
      }
    }
  }

  lemma CommitShare(script: string, init: Store, steps: seq<Step>, i: nat, j: int)
    requires CommitsAt(Reach(script, init, steps).log, i, j) && AllSettled(Reach(script, init, steps))
    ensures
      var s := Reach(script, init, steps);
      i < |s.handlers| && KeysAdded(s.log[j].command, s.log[j].reply) == ReportedShare(s.handlers[i])
  {
    var s := Reach(script, init, steps);
    ReachInv(script, init, steps);
    ReachLogOk(script, init, steps);
    CommittedIsSent(script, init, steps, i, j);
    assert CommitOk(s, i, j);
    CommitReply(s.log[j].before, s.handlers[i].op, s.handlers[i].expected);
  }

  /** The shapes of a commit command's reply. */
  lemma CommitReply(before: Store, op: RowWrite, expected: Option<string>)
    ensures
      var reply := Execute(before, CommitCommand(op, expected)).reply;
      match op
      case Delete(_) => reply == Int(0) || reply == Int(1)
      case Insert(_, _) => reply == Nil || reply == Status("OK")
      case Update(_, _, _) => true
  {
  }

  lemma {:induction false} SharesAreReported(script: string, init: Store, steps: seq<Step>, n: nat)
    requires n <= |Reach(script, init, steps).handlers| && AllSettled(Reach(script, init, steps))
    ensures
      var s := Reach(script, init, steps);
      AddedByAll(s.log, n) == ReportedTotal(s.handlers, n)
  {
    if n > 0 {
      SharesAreReported(script, init, steps, n - 1);
      ShareIsReported(script, init, steps, n - 1);
    }
  }

  /**
   Key-count conservation: with no outside writer and every write settled, the
   final number of keys is the initial number plus the inserts that reported
   success minus the rows the deletes reported; updates count for nothing.
   */
  lemma KeysConserved(script: string, init: Store, steps: seq<Step>)
    requires NoOutsideWriters(Reach(script, init, steps).log) && AllSettled(Reach(script, init, steps))
    ensures
      var s := Reach(script, init, steps);
      |s.store| == |init| + ReportedTotal(s.handlers, |s.handlers|)
  {
    var s := Reach(script, init, steps);
    ReachInv(script, init, steps);
    ReachLogOk(script, init, steps);
    CountOfPrefix(init, s, |s.log|);
    assert s.log[..|s.log|] == s.log;
    SharesAreReported(script, init, steps, |s.handlers|);
  }
}
