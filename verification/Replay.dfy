/**
 The reported statements as a replay log: parsing them with the plugin's own
 parser and running them in order rebuilds the store.
 */
module Replay {
  import opened Errors
  import opened Interleaving
  import opened InterleavingLaws
  import opened Linearization
  import opened RedisStore
  import opened RowWrites
  import opened StatementLaws
  import opened Statements
  import opened Utf8
  import opened Wrappers

  /** Executes one statement text; None when it is not a command of this model. */
  function ExecuteText(script: string, store: Store, statement: string): Option<Store> {
    var parsed := ParseStatement(statement);
    if parsed.Err? || !parsed.value.Redis? then None
    else
      var command := Interpret(script, parsed.value.tokens);
      if command.None? then None else Some(Execute(store, command.value).store)
  }

  function ReplayAll(script: string, store: Option<Store>, statements: seq<string>): Option<Store> {
    if statements == [] then store
    else
      var before := ReplayAll(script, store, statements[..|statements| - 1]);
      if before.None? then None else ExecuteText(script, before.value, statements[|statements| - 1])
  }

  lemma CommandTextParses(script: string, command: Command)
    ensures ParseStatement(StatementOf(script, command)) == Ok(Redis(Tokens(script, command)))
  {
    hide RenderCommand, ParseStatement;
    var tokens := Tokens(script, command);
    var verb := tokens[0];
    assert verb in tokens && !IsWhite(verb[0]) && verb[0] in verb;
    assert HasInk(tokens);
    assert !SameIgnoringCase(verb, "SELECT") by {
      assert UpperChar("EXISTS"[0]) != UpperChar("SELECT"[0]);
    }
    RenderParseRoundTrip(tokens);
  }

  /** The text of any command of the model is parsed and run as that very command. */
  lemma ExecuteTextIsExecute(script: string, store: Store, command: Command)
    ensures ExecuteText(script, store, StatementOf(script, command)) == Some(Execute(store, command).store)
  {
    hide Execute, Interpret, Tokens, StatementOf, ParseStatement;
    InterpretTokens(script, command);
    CommandTextParses(script, command);
  }

  lemma ReplaySnoc(script: string, store: Option<Store>, statements: seq<string>, statement: string)
    ensures
      ReplayAll(script, store, statements + [statement]) ==
      var before := ReplayAll(script, store, statements);
      if before.None? then None else ExecuteText(script, before.value, statement)
  {
    assert (statements + [statement])[..|statements|] == statements;
  }

  // --- writes one after the other --------------------------------------------------------

  /** The statements reported by writes run alone, one after the other. */
  function SoloStatements(script: string, store: Store, ops: seq<RowWrite>): seq<string> {
    if ops == [] then []
    else
      var earlier := SoloStatements(script, store, ops[..|ops| - 1]);
      var outcome := Solo(script, SoloStore(script, store, ops[..|ops| - 1]), ops[|ops| - 1]).1;
      if outcome.Ok? then earlier + [outcome.value.statement] else earlier
  }

  function SoloStore(script: string, store: Store, ops: seq<RowWrite>): Store {
    if ops == [] then store
    else Solo(script, SoloStore(script, store, ops[..|ops| - 1]), ops[|ops| - 1]).0
  }

  /** Replaying what a sequence of row writes reported, from the store it started on, ends in the same store. */
  lemma {:induction false} SequentialReplay(script: string, store: Store, ops: seq<RowWrite>)
    ensures ReplayAll(script, Some(store), SoloStatements(script, store, ops)) == Some(SoloStore(script, store, ops))
  {
    if ops != [] {
      var front, op := ops[..|ops| - 1], ops[|ops| - 1];
      SequentialReplay(script, store, front);
      var before := SoloStore(script, store, front);
      SoloMeaning(script, before, op);
      if Accepted(before, op) {
        var command := CommitCommand(op, ReadText(before, op));
        ReplaySnoc(script, Some(store), SoloStatements(script, store, front), StatementOf(script, command));
        ExecuteTextIsExecute(script, before, command);
        AcceptedCommits(before, op);
      }
    }
  }

  /** On a store where the write is allowed, its commit command carries it out. */
  lemma AcceptedCommits(before: Store, op: RowWrite)
    requires Accepted(before, op)
    ensures Execute(before, CommitCommand(op, ReadText(before, op))).store == Applied(before, op)
  {
    CommitMeaning(before, op, ReadText(before, op), "");
  }

  // --- interleaved writes ------------------------------------------------------------------

  predicate NoOutsideWriters(log: seq<Event>) {
    forall e | e in log :: !e.Outside?
  }

  /** The statements reported by the handlers that reported success, in the order they committed. */
  function Reported(handlers: seq<Handler>, log: seq<Event>): seq<string> {
    if log == [] then []
    else
      var earlier := Reported(handlers, log[..|log| - 1]);
      var report := ReportOf(handlers, log[|log| - 1]);
      if report.Some? then earlier + [report.value] else earlier
  }

  predicate ReportsSuccess(handlers: seq<Handler>, i: nat) {
    i < |handlers| && handlers[i].pc.Ended? && handlers[i].pc.outcome.Ok?
  }

  /** Every change to the store was made by a handler that went on to report success. */
  ghost predicate EveryChangeReported(init: Store, s: System) {
    forall j: nat | j < |s.log| && Changes(init, s.log, j) ::
      s.log[j].Executed? && ReportsSuccess(s.handlers, s.log[j].who)
  }

  lemma SuccessReportsItsCommit(script: string, init: Store, steps: seq<Step>, i: nat, j: nat)
    requires CommitsAt(Reach(script, init, steps).log, i, j)
    requires ReportsSuccess(Reach(script, init, steps).handlers, i)
    ensures
      var s := Reach(script, init, steps);
      s.handlers[i].pc.outcome.value.statement == StatementOf(script, s.log[j].command)
  {
    var s := Reach(script, init, steps);
    ReachInv(script, init, steps);
    ReachLogOk(script, init, steps);
    assert CommitOk(s, i, j);
  }

  /** The statement an event adds to the log of reports, if it is a commit reported as a success. */
  function ReportOf(handlers: seq<Handler>, e: Event): Option<string> {
    if e.Executed? && !IsRead(e.command) && ReportsSuccess(handlers, e.who)
    then Some(handlers[e.who].pc.outcome.value.statement) else None
  }

  lemma ReportedSnoc(handlers: seq<Handler>, log: seq<Event>, n: nat)
    requires n < |log|
    ensures
      var report := ReportOf(handlers, log[n]);
      Reported(handlers, log[..n + 1]) ==
      Reported(handlers, log[..n]) + if report.Some? then [report.value] else []
  {
    assert log[..n + 1][..n] == log[..n];
  }

  /** Replaying what an event reported does what the event did. */
  lemma EventReplays(script: string, init: Store, steps: seq<Step>, n: nat)
    requires n < |Reach(script, init, steps).log|
    requires EveryChangeReported(init, Reach(script, init, steps))
    ensures
      var s := Reach(script, init, steps);
      var (before, after) := (Before(init, s.log, n), Before(init, s.log, n + 1));
      var report := ReportOf(s.handlers, s.log[n]);
      if report.Some? then ExecuteText(script, before, report.value) == Some(after) else after == before
  {
    hide ExecuteText, StatementOf, RunAll;
    var s := Reach(script, init, steps);
    var e := s.log[n];
    if e.Executed? {
      AfterEvent(init, s.log, n);
    }
    if ReportOf(s.handlers, e).Some? {
      SuccessReportsItsCommit(script, init, steps, e.who, n);
      ExecuteTextIsExecute(script, Before(init, s.log, n), e.command);
    }
  }

  lemma NothingReplays(script: string, init: Store, s: System)
    ensures ReplayAll(script, Some(init), Reported(s.handlers, s.log[..0])) == Some(Before(init, s.log, 0))
  {
  }

  lemma {:induction false} PrefixReplays(script: string, init: Store, steps: seq<Step>, n: nat)
    requires n <= |Reach(script, init, steps).log|
    requires EveryChangeReported(init, Reach(script, init, steps))
    ensures
      var s := Reach(script, init, steps);
      ReplayAll(script, Some(init), Reported(s.handlers, s.log[..n])) == Some(Before(init, s.log, n))
  {
    hide Reach, Reported, ReplayAll, ReportOf, ExecuteText, Before, EveryChangeReported;
    var s := Reach(script, init, steps);
    if n == 0 {
      NothingReplays(script, init, s);
    } else {
      PrefixReplays(script, init, steps, n - 1);
      EventReplays(script, init, steps, n - 1);
      ReportedSnoc(s.handlers, s.log, n - 1);
      var report := ReportOf(s.handlers, s.log[n - 1]);
      var earlier := Reported(s.handlers, s.log[..n - 1]);
      if report.Some? {
        ReplaySnoc(script, Some(init), earlier, report.value);
      } else {
        assert earlier + [] == earlier;
      }
    }
  }

  /**
   Replay preserves meaning under any interleaving: provided every change to the
   store was made by a write that reported success, replaying the reported
   statements in commit order on the starting store gives the final store.
   */
  lemma InterleavedReplay(script: string, init: Store, steps: seq<Step>)
    requires EveryChangeReported(init, Reach(script, init, steps))
    ensures
      var s := Reach(script, init, steps);
      ReplayAll(script, Some(init), Reported(s.handlers, s.log)) == Some(s.store)
  {
    var s := Reach(script, init, steps);
    ReachLogOk(script, init, steps);
    assert s.log[..|s.log|] == s.log;
    PrefixReplays(script, init, steps, |s.log|);
  }

  /** No write is left open: each was decided by a reply, or its commit was never sent. */
  ghost predicate AllSettled(s: System) {
    forall i | 0 <= i < |s.handlers| :: s.handlers[i].pc.Ended? || !CommitSent(s.log, i)
  }

  /** Every handler has returned, none on a lost connection and none dropped. */
  predicate AllAnswered(s: System) {
    forall i | 0 <= i < |s.handlers| :: s.handlers[i].pc.Ended? || s.handlers[i].pc.Refused?
  }

  /** What a host can see is enough: writes answered, refusals by a closed session included, are settled. */
  lemma AnsweredIsSettled(script: string, init: Store, steps: seq<Step>)
    requires AllAnswered(Reach(script, init, steps))
    ensures AllSettled(Reach(script, init, steps))
  {
    ReachInv(script, init, steps);
  }

  /**
   The condition for a faithful log: no outside writer, and no write that was cut
   off, by a cancel or a lost connection, after its commit was sent. A write cut
   off earlier, refused or still reading does not matter.
   */
  lemma SettledChangesAreReported(script: string, init: Store, steps: seq<Step>)
    requires NoOutsideWriters(Reach(script, init, steps).log) && AllSettled(Reach(script, init, steps))
    ensures EveryChangeReported(init, Reach(script, init, steps))
  {
    var s := Reach(script, init, steps);
    ReachInv(script, init, steps);
    forall j: nat | j < |s.log| && Changes(init, s.log, j)
      ensures s.log[j].Executed? && ReportsSuccess(s.handlers, s.log[j].who)
    {
      assert s.log[j] in s.log;
      assert s.log[..j + 1][..j] == s.log[..j];
      var i := s.log[j].who;
      OnlyCommitsChange(init, s.log, j);
      CommittedIsSent(script, init, steps, i, j);
      if s.handlers[i].pc.outcome.Err? {
        var k := FailureLinearizes(script, init, steps, i);
      }
    }
  }

  lemma CommittedIsSent(script: string, init: Store, steps: seq<Step>, i: nat, j: int)
    requires CommitsAt(Reach(script, init, steps).log, i, j)
    ensures i < |Reach(script, init, steps).handlers| && CommitSent(Reach(script, init, steps).log, i)
  {
    var s := Reach(script, init, steps);
    ReachInv(script, init, steps);
    assert CommitOk(s, i, j);
    var k :| CommitSentAt(s.log[..j], i, k);
    assert CommitSentAt(s.log, i, k);
  }
}
