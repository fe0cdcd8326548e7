/**
 Any number of row-write handlers of one session at work at the same time, with
 arbitrary other clients on the same Redis. A handler sends one command at a
 time: it reads the closed flag, waits for the connection lock, sends, and holds
 the lock until the reply. Its future may be dropped at any await point (the
 request was canceled) and the connection may fail under it; a command already
 sent may then still run, later or never.

 `Apply` ignores a step that is not enabled, so every step sequence is a run.
 */
module Interleaving {
  import opened Errors
  import opened RedisStore
  import opened RowWrites
  import opened Wrappers

  /**
   Where a handler is. `Ended` is an end by a reply; `Refused` one by the closed
   check or for want of a connection, before sending; `Lost` one by a connection
   that failed while the reply was awaited. `Dropped` is a canceled handler.
   */
  datatype Pc =
    | Checking
    | Queued
    | Awaiting
    | Ended(outcome: Outcome)
    | Refused
    | Lost
    | Dropped
  {
    /** What the caller is told, if the handler has returned. */
    function Answer(): Option<Outcome> {
      match this
      case Ended(outcome) => Some(outcome)
      case Refused | Lost => Some(Err(Connection))
      case _ => None
    }

    /** Nothing more will be done by the handler itself. */
    predicate IsOver() {
      Ended? || Refused? || Lost? || Dropped?
    }
  }

  /** `wire`: the command of this phase is sent and not yet run. */
  datatype Handler = Handler(
    op: RowWrite, phase: Phase, expected: Option<string>, pc: Pc, wire: bool, reply: Option<Reply>)
  {
    function Command(): Command {
      CommandAt(op, phase, expected)
    }
  }

  datatype Event =
    | Sent(who: nat, command: Command)
    | Executed(who: nat, command: Command, before: Store, reply: Reply)
    | Outside(after: Store)

  datatype System = System(
    script: string, store: Store, closed: bool, connected: bool,
    lock: Option<nat>, handlers: seq<Handler>, log: seq<Event>)

  datatype Step =
    | Start(op: RowWrite)
    | Check(who: nat)
    | Acquire(who: nat)
    | Run(who: nat)
    | Receive(who: nat)
    | Lose(who: nat)
    | Drop(who: nat)
    | Close
    | Disturb(after: Store)

  function Initial(script: string, store: Store): System {
    System(script, store, false, true, None, [], [])
  }

  function Fresh(op: RowWrite): Handler {
    Handler(op, FirstPhase(op), None, Checking, false, None)
  }

  function Put(s: System, i: nat, h: Handler): System
    requires i < |s.handlers|
  {
    s.(handlers := s.handlers[i := h])
  }

  /** The handler after its command's reply. */
  function Resume(script: string, h: Handler, reply: Reply): Handler {
    var verdict := OnReply(script, h.op, h.phase, h.expected, reply);
    if verdict.Finish? then h.(pc := Ended(verdict.outcome), reply := None)
    else h.(phase := verdict.phase, expected := verdict.expected, pc := Checking, reply := None)
  }

  function ApplyTo(s: System, step: Step, i: nat): System
    requires i < |s.handlers|
  {
    var h := s.handlers[i];
    match step
    case Check(_) =>
      if !h.pc.Checking? then s
      else Put(s, i, h.(pc := if s.closed then Refused else Queued))
    case Acquire(_) =>
      if !h.pc.Queued? || s.lock.Some? then s
      else if !s.connected then Put(s, i, h.(pc := Refused))
      else Put(s, i, h.(pc := Awaiting, wire := true)).(lock := Some(i), log := s.log + [Sent(i, h.Command())])
    case Run(_) =>
      if !h.wire then s
      else
        var after := Execute(s.store, h.Command());
        Put(s, i, h.(wire := false, reply := if h.pc.Awaiting? then Some(after.reply) else None))
        .(store := after.store, log := s.log + [Executed(i, h.Command(), s.store, after.reply)])
    case Receive(_) =>
      if !h.pc.Awaiting? || h.reply.None? then s
      else Put(s, i, Resume(s.script, h, h.reply.value)).(lock := None)
    case Lose(_) =>
      if !h.pc.Awaiting? then s
      else Put(s, i, h.(pc := Lost, reply := None)).(lock := None)
    case Drop(_) =>
      if h.pc.IsOver() then s
      else Put(s, i, h.(pc := Dropped, reply := None)).(lock := if h.pc.Awaiting? then None else s.lock)
    case _ => s
  }

  function Apply(s: System, step: Step): System {
    match step
    case Start(op) => s.(handlers := s.handlers + [Fresh(op)])
    case Close => s.(closed := true, connected := s.connected && s.lock.Some?)
    case Disturb(after) => s.(store := after, log := s.log + [Outside(after)])
    case Check(i) => if i < |s.handlers| then ApplyTo(s, step, i) else s
    case Acquire(i) => if i < |s.handlers| then ApplyTo(s, step, i) else s
    case Run(i) => if i < |s.handlers| then ApplyTo(s, step, i) else s
    case Receive(i) => if i < |s.handlers| then ApplyTo(s, step, i) else s
    case Lose(i) => if i < |s.handlers| then ApplyTo(s, step, i) else s
    case Drop(i) => if i < |s.handlers| then ApplyTo(s, step, i) else s
  }

  function RunAll(s: System, steps: seq<Step>): System {
    if steps == [] then s else Apply(RunAll(s, steps[..|steps| - 1]), steps[|steps| - 1])
  }

  function Reach(script: string, store: Store, steps: seq<Step>): System {
    RunAll(Initial(script, store), steps)
  }

  // --- the log read as a sequential history ----------------------------------------

  /** The store after running the logged commands and outside changes one after the other. */
  function StoreAfter(init: Store, log: seq<Event>): Store {
    if log == [] then init
    else
      var before := StoreAfter(init, log[..|log| - 1]);
      match log[|log| - 1]
      case Sent(_, _) => before
      case Executed(_, command, _, _) => Execute(before, command).store
      case Outside(after) => after
  }

  /** Event `j` is handler `i`'s one mutating command running on Redis. */
  predicate CommitsAt(log: seq<Event>, i: nat, j: int) {
    0 <= j < |log| && log[j].Executed? && log[j].who == i && !IsRead(log[j].command)
  }

  /** Event `j` is handler `i` sending its one mutating command. */
  predicate CommitSentAt(log: seq<Event>, i: nat, j: int) {
    0 <= j < |log| && log[j].Sent? && log[j].who == i && !IsRead(log[j].command)
  }

  ghost predicate CommitSent(log: seq<Event>, i: nat) {
    exists j :: CommitSentAt(log, i, j)
  }

  predicate SeenAt(log: seq<Event>, i: nat, command: Command, reply: Reply, j: int) {
    0 <= j < |log| && log[j].Executed? && log[j].who == i && log[j].command == command && log[j].reply == reply
  }

  ghost predicate Seen(log: seq<Event>, i: nat, command: Command, reply: Reply) {
    exists j :: SeenAt(log, i, command, reply, j)
  }
}
