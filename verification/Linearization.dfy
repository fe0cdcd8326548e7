/**
 Over every interleaving: the log is a sequential history of the store, and each
 write takes effect at one point of it or not at all. A success is what the write
 alone would have had at that point. A failure, unless the connection was lost,
 changed nothing: its handler was refused, or the write alone fails at the point
 that decided it too (perhaps with another error), or the text it had read was gone.
 */
module Linearization {
  import opened Errors
  import opened Interleaving
  import opened InterleavingLaws
  import opened RedisStore
  import opened RowWrites
  import opened Utf8
  import opened Wrappers

  /** The store just before event `j`. */
  function Before(init: Store, log: seq<Event>, j: nat): Store
    requires j <= |log|
  {
    StoreAfter(init, log[..j])
  }

  ghost predicate LogOk(init: Store, s: System) {
    && s.store == StoreAfter(init, s.log)
    && forall j | 0 <= j < |s.log| && s.log[j].Executed? ::
         && s.log[j].before == Before(init, s.log, j)
         && s.log[j].reply == Execute(s.log[j].before, s.log[j].command).reply
  }

  /** A step logs one event, with its effect on the store, or leaves log and store alone. */
  lemma StepLogs(s: System, step: Step)
    ensures
      var t := Apply(s, step);
      && t.script == s.script
      && if t.log == s.log then t.store == s.store
         else
           && |t.log| == |s.log| + 1 && t.log == s.log + [t.log[|s.log|]]
           && match t.log[|s.log|]
           case Sent(_, _) => t.store == s.store
           case Outside(after) => t.store == after
           case Executed(_, command, before, reply) =>
             before == s.store && Execute(before, command) == Effect(t.store, reply)
  {
    hide Execute, Resume;
  }

  lemma StepKeepsLogOk(init: Store, s: System, step: Step)
    requires LogOk(init, s)
    ensures LogOk(init, Apply(s, step)) && Apply(s, step).script == s.script
  {
    StepLogs(s, step);
    hide Apply, Execute;
    var t := Apply(s, step);
    if t.log != s.log {
      assert t.log[..|s.log|] == s.log;
      assert forall j | 0 <= j < |s.log| :: t.log[..j] == s.log[..j] && t.log[j] == s.log[j];
    }
  }

  lemma StartLogOk(script: string, init: Store)
    ensures LogOk(init, Reach(script, init, [])) && Reach(script, init, []).script == script
  {
  }

  lemma {:induction false} ReachLogOk(script: string, init: Store, steps: seq<Step>)
    ensures LogOk(init, Reach(script, init, steps)) && Reach(script, init, steps).script == script
  {
    hide Apply, LogOk, StoreAfter;
    if steps == [] {
      StartLogOk(script, init);
    } else {
      var front := steps[..|steps| - 1];
      ReachLogOk(script, init, front);
      StepKeepsLogOk(init, Reach(script, init, front), steps[|steps| - 1]);
    }
  }

  lemma AfterEvent(init: Store, log: seq<Event>, j: nat)
    requires j < |log| && log[j].Executed?
    ensures Before(init, log, j + 1) == Execute(Before(init, log, j), log[j].command).store
  {
    assert log[..j + 1][..j] == log[..j];
  }

  /** Event `j` of the log changes the store. */
  predicate Changes(init: Store, log: seq<Event>, j: nat)
    requires j < |log|
  {
    Before(init, log, j + 1) != Before(init, log, j)
  }

  lemma OnlyCommitsChange(init: Store, log: seq<Event>, j: nat)
    requires j < |log| && log[j].Executed? && Changes(init, log, j)
    ensures CommitsAt(log, log[j].who, j)
  {
    AfterEvent(init, log, j);
  }

  /**
   The commit command of a write, wherever it runs: it has the write's whole
   declared effect on the store it finds, and reports it, or it has none. This
   covers handlers that were canceled or lost their connection, whose command
   may run after they are gone: never a rename without its SET.
   */
  lemma CommitAtomic(script: string, init: Store, steps: seq<Step>, i: nat, j: nat)
    requires CommitsAt(Reach(script, init, steps).log, i, j)
    ensures
      var s := Reach(script, init, steps);
      && i < |s.handlers|
      && var h := s.handlers[i];
      && var before := Before(init, s.log, j);
      && CommitIsMeant(before, h.op, h.expected, Effect(Before(init, s.log, j + 1), s.log[j].reply),
                       CommitVerdict(h.op, s.log[j].reply, StatementOf(script, h.Command())),
                       StatementOf(script, h.Command()))
  {
    var s := Reach(script, init, steps);
    ReachInv(script, init, steps);
    ReachLogOk(script, init, steps);
    assert CommitOk(s, i, j);
    AfterEvent(init, s.log, j);
    var h := s.handlers[i];
    CommitMeaning(Before(init, s.log, j), h.op, h.expected, StatementOf(script, h.Command()));
  }

  /** A handler changes the store at most once. */
  lemma AtMostOneChange(script: string, init: Store, steps: seq<Step>, j: nat, k: nat)
    requires
      var log := Reach(script, init, steps).log;
      && j < |log| && k < |log| && log[j].Executed? && log[k].Executed?
      && log[j].who == log[k].who && Changes(init, log, j) && Changes(init, log, k)
    ensures j == k
  {
    var s := Reach(script, init, steps);
    ReachInv(script, init, steps);
    OnlyCommitsChange(init, s.log, j);
    OnlyCommitsChange(init, s.log, k);
    assert CommitOk(s, s.log[j].who, j);
  }

  /**
   A write that reports success took effect at one event of the history, with
   exactly the store and the report of the write alone on the store of that moment.
   */
  lemma SuccessLinearizes(script: string, init: Store, steps: seq<Step>, i: nat) returns (j: nat)
    requires
      var s := Reach(script, init, steps);
      i < |s.handlers| && s.handlers[i].pc.Ended? && s.handlers[i].pc.outcome.Ok?
    ensures
      var s := Reach(script, init, steps);
      && CommitsAt(s.log, i, j)
      && Solo(script, Before(init, s.log, j), s.handlers[i].op) ==
         (Before(init, s.log, j + 1), s.handlers[i].pc.outcome)
  {
    hide Execute, SoloFrom, Encode, Accepted, StatementOf, RunAll, Before;
    var s := Reach(script, init, steps);
    var h := s.handlers[i];
    ReachInv(script, init, steps);
    ReachLogOk(script, init, steps);
    var reply :| Seen(s.log, i, h.Command(), reply) && Decides(script, h, reply, h.pc.outcome);
    var n :| SeenAt(s.log, i, h.Command(), reply, n);
    j := n;
    CommitAtomic(script, init, steps, i, j);
    SoloMeaning(script, Before(init, s.log, j), h.op);
    assert h.op.EditsValue() ==> ReadText(Before(init, s.log, j), h.op) == h.expected;
    assert !h.op.EditsValue() ==> ReadText(Before(init, s.log, j), h.op) == h.expected == None;
  }

  lemma LogGrows(s: System, step: Step, i: nat)
    ensures s.log <= Apply(s, step).log && |s.handlers| <= |Apply(s, step).handlers|
    ensures i < |s.handlers| && s.handlers[i].pc.IsOver() && !s.handlers[i].wire ==>
            Apply(s, step).handlers[i] == s.handlers[i]
  {
    StepLogs(s, step);
    hide Execute, Resume;
  }

  /** What has been logged stays logged, and an answered write stays as it was answered. */
  lemma {:induction false} PastIsKept(script: string, init: Store, steps: seq<Step>, more: seq<Step>, i: nat)
    requires i < |Reach(script, init, steps).handlers| && Reach(script, init, steps).handlers[i].pc.IsOver()
    requires !Reach(script, init, steps).handlers[i].wire
    ensures
      var (s, t) := (Reach(script, init, steps), Reach(script, init, steps + more));
      s.log <= t.log && i < |t.handlers| && t.handlers[i] == s.handlers[i]
  {
    hide Apply;
    if more == [] {
      assert steps + more == steps;
    } else {
      var front := more[..|more| - 1];
      PastIsKept(script, init, steps, front, i);
      assert (steps + more)[..|steps + more| - 1] == steps + front;
      LogGrows(Reach(script, init, steps + front), more[|more| - 1], i);
    }
  }

  /**
   Real-time order: a write answered with success before another begins takes
   effect before it, so the history never contradicts what a caller can see.
   */
  lemma RealTimeOrder(script: string, init: Store, steps: seq<Step>, more: seq<Step>, i: nat, later: nat, k: nat)
      returns (j: nat)
    requires
      var s := Reach(script, init, steps);
      && i < |s.handlers| <= later && s.handlers[i].pc.Ended? && s.handlers[i].pc.outcome.Ok?
      && CommitsAt(Reach(script, init, steps + more).log, later, k)
    ensures CommitsAt(Reach(script, init, steps + more).log, i, j) && j < k
  {
    var s, t := Reach(script, init, steps), Reach(script, init, steps + more);
    j := SuccessLinearizes(script, init, steps, i);
    ReachInv(script, init, steps);
    PastIsKept(script, init, steps, more, i);
    hide RunAll, Solo;
    assert forall n | 0 <= n < |s.log| :: t.log[n] == s.log[n];
  }

  /** No command of the handler changed the store. */
  ghost predicate ChangedNothing(init: Store, log: seq<Event>, i: nat) {
    forall k: nat | k < |log| && log[k].Executed? && log[k].who == i :: !Changes(init, log, k)
  }

  lemma NoCommitChangedNothing(init: Store, log: seq<Event>, i: nat)
    requires forall j :: !CommitsAt(log, i, j)
    ensures ChangedNothing(init, log, i)
  {
    forall k: nat | k < |log| && log[k].Executed? && log[k].who == i
      ensures !Changes(init, log, k)
    {
      assert !CommitsAt(log, i, k);
      AfterEvent(init, log, k);
    }
  }

  /**
   A write that reports a failure, other than a lost connection, changed nothing,
   a refusal by a closed session included. If a reply decided the failure, then
   at that event the write alone would have failed too, or the source no longer
   held the text that was read, and the write backed out.
   */
  lemma FailureLinearizes(script: string, init: Store, steps: seq<Step>, i: nat) returns (j: nat)
    requires
      var s := Reach(script, init, steps);
      && i < |s.handlers| && !s.handlers[i].pc.Lost?
      && s.handlers[i].pc.Answer().Some? && s.handlers[i].pc.Answer().value.Err?
    ensures
      var s := Reach(script, init, steps);
      var h := s.handlers[i];
      && ChangedNothing(init, s.log, i)
      && (h.pc.Refused? || DecidedAt(script, init, s.log, h, i, j))
  {
    var s := Reach(script, init, steps);
    ReachInv(script, init, steps);
    if s.handlers[i].pc.Refused? {
      j := 0;
      NoCommitChangedNothing(init, s.log, i);
    } else {
      j := FailureByReply(script, init, steps, i);
    }
  }

  /** Event `j` ended the handler: the write alone fails there too, or the commit found another text than was read. */
  ghost predicate DecidedAt(script: string, init: Store, log: seq<Event>, h: Handler, i: nat, j: nat) {
    && j < |log| && log[j].Executed? && log[j].who == i
    && (|| Solo(script, Before(init, log, j), h.op).1.Err?
        || (CommitsAt(log, i, j) && h.op.EditsValue() && ReadText(Before(init, log, j), h.op) != h.expected))
  }

  lemma FailureByReply(script: string, init: Store, steps: seq<Step>, i: nat) returns (j: nat)
    requires
      var s := Reach(script, init, steps);
      i < |s.handlers| && s.handlers[i].pc.Ended? && s.handlers[i].pc.outcome.Err?
    ensures
      var s := Reach(script, init, steps);
      ChangedNothing(init, s.log, i) && DecidedAt(script, init, s.log, s.handlers[i], i, j)
  {
    hide StatementOf, SoloFrom, RunAll;
    var s := Reach(script, init, steps);
    var h := s.handlers[i];
    ReachInv(script, init, steps);
    ReachLogOk(script, init, steps);
    var reply :| Seen(s.log, i, h.Command(), reply) && Decides(script, h, reply, h.pc.outcome);
    var n :| SeenAt(s.log, i, h.Command(), reply, n);
    j := n;
    var before := Before(init, s.log, j);
    SoloMeaning(script, before, h.op);
    if h.phase.Commit? {
      CommitAtomic(script, init, steps, i, j);
    } else {
      ReadFailureIsMeant(script, before, h, h.pc.outcome);
    }
    FailedCommitsChangeNothing(script, init, steps, i);
  }

  lemma FailedCommitsChangeNothing(script: string, init: Store, steps: seq<Step>, i: nat)
    requires
      var s := Reach(script, init, steps);
      i < |s.handlers| && s.handlers[i].pc.Ended? && s.handlers[i].pc.outcome.Err?
    ensures ChangedNothing(init, Reach(script, init, steps).log, i)
  {
    hide StatementOf, RunAll;
    var s := Reach(script, init, steps);
    ReachInv(script, init, steps);
    ReachLogOk(script, init, steps);
    forall k: nat | k < |s.log| && s.log[k].Executed? && s.log[k].who == i
      ensures !Changes(init, s.log, k)
    {
      if IsRead(s.log[k].command) {
        AfterEvent(init, s.log, k);
      } else {
        assert CommitsAt(s.log, i, k);
        CommitAtomic(script, init, steps, i, k);
      }
    }
  }

  /** And it never will: nothing of it is left to run. */
  lemma FailureIsFinal(script: string, init: Store, steps: seq<Step>, more: seq<Step>, i: nat)
    requires
      var s := Reach(script, init, steps);
      && i < |s.handlers| && !s.handlers[i].pc.Lost?
      && s.handlers[i].pc.Answer().Some? && s.handlers[i].pc.Answer().value.Err?
    ensures ChangedNothing(init, Reach(script, init, steps + more).log, i)
  {
    ReachInv(script, init, steps);
    PastIsKept(script, init, steps, more, i);
    var j := FailureLinearizes(script, init, steps + more, i);
  }

  /** A read that ends a write shows a store on which the write is not allowed. */
  lemma ReadFailureIsMeant(script: string, before: Store, h: Handler, outcome: Outcome)
    requires ShapeOk(h) && !h.phase.Commit?
    requires Decides(script, h, Execute(before, h.Command()).reply, outcome)
    ensures !Accepted(before, h.op)
  {
    EncodeInjective(h.op.key, h.op.Destination());
  }

  /**
   No lost update: a value edit that commits found at its source exactly the text
   its handler had read earlier, which is valid UTF-8 of at most 300 scalars, and
   found its destination free or equal to the source.
   */
  lemma NoLostUpdate(script: string, init: Store, steps: seq<Step>, i: nat, j: nat) returns (r: nat)
    requires
      var s := Reach(script, init, steps);
      CommitsAt(s.log, i, j) && s.log[j].reply == Int(1) && i < |s.handlers| && s.handlers[i].op.EditsValue()
    ensures
      var s := Reach(script, init, steps);
      var op := s.handlers[i].op;
      var before := Before(init, s.log, j);
      && r < j && s.log[r].Executed? && s.log[r].who == i && s.log[r].command == Get(op.key) && s.log[r].reply.Bulk?
      && Encode(op.key) in before && before[Encode(op.key)] == Str(s.log[r].reply.bytes)
      && EditableText(s.log[r].reply.bytes).Some?
      && (op.Destination() == op.key || Encode(op.Destination()) !in before)
  {
    var s := Reach(script, init, steps);
    ReachInv(script, init, steps);
    CommitAtomic(script, init, steps, i, j);
    assert CommitOk(s, i, j);
    var h := s.handlers[i];
    var text := h.expected.value;
    var n :| SeenAt(s.log[..j], i, Get(h.op.key), Bulk(Encode(text)), n);
    r := n;
    ReadTextIs(Before(init, s.log, j), h.op, text);
    DecodeIffEncode(Encode(text), text);
    EncodeInjective(h.op.key, h.op.Destination());
  }

  // --- the history without the events that change nothing --------------------------------

  datatype Item = Wrote(op: RowWrite) | Changed(after: Store)

  /** The successful writes and outside changes of a log, in order. */
  function History(handlers: seq<Handler>, log: seq<Event>): seq<Item> {
    if log == [] then []
    else
      var earlier := History(handlers, log[..|log| - 1]);
      match log[|log| - 1]
      case Sent(_, _) => earlier
      case Outside(after) => earlier + [Changed(after)]
      case Executed(who, command, _, reply) =>
        if !IsRead(command) && who < |handlers| && CommitVerdict(handlers[who].op, reply, "").Ok?
        then earlier + [Wrote(handlers[who].op)] else earlier
  }

  /** The declared meanings applied one after the other; None where a write is not allowed. */
  function ApplyHistory(init: Store, history: seq<Item>): Option<Store> {
    if history == [] then Some(init)
    else
      var before := ApplyHistory(init, history[..|history| - 1]);
      if before.None? then None
      else match history[|history| - 1]
        case Changed(after) => Some(after)
        case Wrote(op) => if Accepted(before.value, op) then Some(Applied(before.value, op)) else None
  }

  /** One more event: a write that took effect joins the history, anything else leaves the store. */
  lemma EventLinearizes(script: string, init: Store, steps: seq<Step>, n: nat)
    requires n < |Reach(script, init, steps).log|
    ensures
      var s := Reach(script, init, steps);
      var (before, after) := (Before(init, s.log, n), Before(init, s.log, n + 1));
      match s.log[n]
      case Sent(_, _) => after == before
      case Outside(changed) => after == changed
      case Executed(who, command, _, reply) =>
        if !IsRead(command) && who < |s.handlers| && CommitVerdict(s.handlers[who].op, reply, "").Ok?
        then Accepted(before, s.handlers[who].op) && after == Applied(before, s.handlers[who].op)
        else after == before
  {
    hide RunAll, StatementOf, Encode;
    var s := Reach(script, init, steps);
    assert s.log[..n + 1][..n] == s.log[..n];
    if s.log[n].Executed? {
      AfterEvent(init, s.log, n);
      if !IsRead(s.log[n].command) {
        CommitAtomic(script, init, steps, s.log[n].who, n);
      }
    }
  }

  /** The history up to one more event is the history before it, with at most one item added. */
  lemma HistorySnoc(init: Store, handlers: seq<Handler>, log: seq<Event>, n: nat)
    requires n < |log|
    ensures
      var earlier := ApplyHistory(init, History(handlers, log[..n]));
      ApplyHistory(init, History(handlers, log[..n + 1])) ==
      match log[n]
      case Sent(_, _) => earlier
      case Outside(after) => if earlier.None? then None else Some(after)
      case Executed(who, command, _, reply) =>
        if !IsRead(command) && who < |handlers| && CommitVerdict(handlers[who].op, reply, "").Ok? then
          if earlier.Some? && Accepted(earlier.value, handlers[who].op)
          then Some(Applied(earlier.value, handlers[who].op)) else None
        else earlier
  {
    hide Accepted, Applied, CommitVerdict;
    assert log[..n + 1][..n] == log[..n];
    var earlier, history := History(handlers, log[..n]), History(handlers, log[..n + 1]);
    if history != earlier {
      assert history[..|history| - 1] == earlier;
    }
  }

  lemma NothingLinearizes(init: Store, s: System)
    ensures ApplyHistory(init, History(s.handlers, s.log[..0])) == Some(Before(init, s.log, 0))
  {
  }

  lemma {:induction false} PrefixLinearizes(script: string, init: Store, steps: seq<Step>, n: nat)
    requires n <= |Reach(script, init, steps).log|
    ensures
      var s := Reach(script, init, steps);
      ApplyHistory(init, History(s.handlers, s.log[..n])) == Some(Before(init, s.log, n))
  {
    hide Accepted, Applied, Reach, CommitVerdict, History, ApplyHistory, Before;
    var s := Reach(script, init, steps);
    if n == 0 {
      NothingLinearizes(init, s);
    } else {
      PrefixLinearizes(script, init, steps, n - 1);
      EventLinearizes(script, init, steps, n - 1);
      HistorySnoc(init, s.handlers, s.log, n - 1);
    }
  }

  /**
   Linearization: in every interleaving the store is the sequential application,
   in commit order, of the writes that took effect and the outside changes, each
   write allowed where it is applied.
   */
  lemma StoreIsSequential(script: string, init: Store, steps: seq<Step>)
    ensures
      var s := Reach(script, init, steps);
      ApplyHistory(init, History(s.handlers, s.log)) == Some(s.store)
  {
    var s := Reach(script, init, steps);
    ReachLogOk(script, init, steps);
    assert s.log[..|s.log|] == s.log;
    PrefixLinearizes(script, init, steps, |s.log|);
  }
}
