/**
 Which commands a write sends, and in which order: its checks first, each once,
 and its one change last. True of every handler in every interleaving, whatever
 becomes of it.
 */
module ProtocolOrder {
  import opened Errors
  import opened Interleaving
  import opened InterleavingLaws
  import opened Linearization
  import opened RedisStore
  import opened RowWrites
  import opened Schedules
  import opened Wrappers

  /** An edit looks at the type and the value of its row, a rename at its destination. */
  function Checks(op: RowWrite): seq<Command> {
    match op
    case Delete(_) => []
    case Insert(_, _) => []
    case Update(key, renameTo, newValue) =>
      (if newValue.Some? then [Type(key), Get(key)] else [])
      + (if renameTo.Some? && renameTo.value != key then [Exists(renameTo.value)] else [])
  }

  /** Then one command makes the change; an edit's names the text that was read. */
  function Change(op: RowWrite, expected: Option<string>): Command {
    match op
    case Delete(key) => Del(key)
    case Insert(key, value) => SetNx(key, value)
    case Update(key, renameTo, newValue) =>
      Eval(key, renameTo.GetOr(key), newValue.Some?, expected.GetOr(""), newValue.GetOr(""))
  }

  function Protocol(op: RowWrite, expected: Option<string>): seq<Command> {
    Checks(op) + [Change(op, expected)]
  }

  function SentBy(log: seq<Event>, i: nat): seq<Command> {
    if log == [] then []
    else
      var last := log[|log| - 1];
      SentBy(log[..|log| - 1], i) + if last.Sent? && last.who == i then [last.command] else []
  }

  lemma SentBySnoc(log: seq<Event>, e: Event, i: nat)
    ensures SentBy(log + [e], i) == SentBy(log, i) + if e.Sent? && e.who == i then [e.command] else []
  {
    assert (log + [e])[..|log|] == log;
  }

  /** The place of a phase's command in the protocol. */
  function Place(op: RowWrite, phase: Phase): nat {
    match phase
    case CheckType => 0
    case ReadValue => 1
    case CheckDestination => if op.EditsValue() then 2 else 0
    case Commit => |Checks(op)|
  }

  lemma PlaceHolds(h: Handler)
    requires ShapeOk(h)
    ensures Place(h.op, h.phase) < |Protocol(h.op, h.expected)|
    ensures Protocol(h.op, h.expected)[Place(h.op, h.phase)] == h.Command()
  {
  }

  /** What a handler has sent: the protocol up to its phase, with that phase's command if it got that far. */
  ghost predicate InOrder(log: seq<Event>, i: nat, h: Handler) {
    var sent, protocol, n := SentBy(log, i), Protocol(h.op, h.expected), Place(h.op, h.phase);
    && ShapeOk(h) && n < |protocol|
    && (HasNotSent(h) ==> sent == protocol[..n])
    && (h.pc.Awaiting? || h.pc.Ended? || h.pc.Lost? ==> sent == protocol[..n + 1])
    && (h.pc.Dropped? ==> sent == protocol[..n] || sent == protocol[..n + 1])
  }

  ghost predicate AllInOrder(s: System) {
    forall i | 0 <= i < |s.handlers| :: InOrder(s.log, i, s.handlers[i])
  }

  /** The handler after a reply is one command further. */
  lemma ResumeInOrder(script: string, log: seq<Event>, i: nat, h: Handler, reply: Reply)
    requires InOrder(log, i, h) && h.pc.Awaiting? && ShapeOk(Resume(script, h, reply))
    ensures InOrder(log, i, Resume(script, h, reply))
  {
    var h' := Resume(script, h, reply);
    var n := Place(h.op, h.phase);
    if h'.pc.Checking? {
      assert Place(h'.op, h'.phase) == n + 1 && n + 1 <= |Checks(h.op)|;
      assert Protocol(h.op, h.expected)[..n + 1] == Checks(h.op)[..n + 1] == Protocol(h'.op, h'.expected)[..n + 1];
    }
  }

  lemma SendInOrder(log: seq<Event>, i: nat, h: Handler)
    requires InOrder(log, i, h) && h.pc.Queued?
    ensures InOrder(log + [Sent(i, h.Command())], i, h.(pc := Awaiting, wire := true))
  {
    PlaceHolds(h);
    SentBySnoc(log, Sent(i, h.Command()), i);
    var protocol, n := Protocol(h.op, h.expected), Place(h.op, h.phase);
    hide Protocol, Place, ShapeOk, SentBy;
    assert protocol[..n + 1] == protocol[..n] + [protocol[n]];
  }

  lemma OthersInOrder(log: seq<Event>, e: Event, i: nat, h: Handler)
    requires InOrder(log, i, h) && !(e.Sent? && e.who == i)
    ensures InOrder(log + [e], i, h)
  {
    SentBySnoc(log, e, i);
    hide SentBy, Protocol, Place, ShapeOk;
    assert SentBy(log, i) + [] == SentBy(log, i);
  }

  /** Every step keeps every handler in its protocol. */
  lemma StepInOrder(s: System, step: Step)
    requires AllInOrder(s) && Inv(s) && Inv(Apply(s, step))
    ensures AllInOrder(Apply(s, step))
  {
    var t := Apply(s, step);
    forall i | 0 <= i < |t.handlers| ensures InOrder(t.log, i, t.handlers[i]) {
      if i < |s.handlers| {
        HandlerStepInOrder(s, step, i);
      } else {
        NothingSent(s.log, i);
      }
    }
  }

  lemma {:induction false} NothingSent(log: seq<Event>, i: nat)
    requires forall j | 0 <= j < |log| && log[j].Sent? :: log[j].who != i
    ensures SentBy(log, i) == []
  {
    if log != [] {
      NothingSent(log[..|log| - 1], i);
    }
  }

  /** The handler is at the same command: not yet sent still, or sent, or given up. */
  predicate StaysPut(h: Handler, h': Handler) {
    && h'.op == h.op && h'.phase == h.phase && h'.expected == h.expected
    && (HasNotSent(h') ==> HasNotSent(h))
    && (h'.pc.Awaiting? || h'.pc.Lost? ==> h.pc.Awaiting? || h.pc.Lost?)
    && (h'.pc.Ended? ==> h.pc == h'.pc)
  }

  lemma StaysInOrder(log: seq<Event>, i: nat, h: Handler, h': Handler)
    requires InOrder(log, i, h) && StaysPut(h, h')
    ensures InOrder(log, i, h')
  {
    hide SentBy, Protocol, Place;
  }

  predicate IsQuiet(s: System, t: System, i: nat) {
    t.log == s.log
    || (|t.log| == |s.log| + 1 && t.log == s.log + [t.log[|s.log|]]
        && !(t.log[|s.log|].Sent? && t.log[|s.log|].who == i))
  }

  predicate IsOwn(step: Step, i: nat) {
    !step.Start? && !step.Close? && !step.Disturb? && step.who == i
  }

  lemma OtherStepMoves(s: System, step: Step, i: nat)
    requires i < |s.handlers| && !IsOwn(step, i)
    ensures
      var t := Apply(s, step);
      i < |t.handlers| && t.handlers[i] == s.handlers[i] && IsQuiet(s, t, i)
  {
    hide Execute, Resume, CommandAt;
  }

  /** A handler's own step sends its command, resumes it after a reply, or leaves it where it is. */
  lemma OwnStepMoves(s: System, step: Step, i: nat)
    requires i < |s.handlers| && IsOwn(step, i)
    ensures
      var t := Apply(s, step);
      && i < |t.handlers|
      && var (h, h') := (s.handlers[i], t.handlers[i]);
      || (h.pc.Queued? && h' == h.(pc := Awaiting, wire := true) && t.log == s.log + [Sent(i, h.Command())])
      || (h.pc.Awaiting? && h.reply.Some? && h' == Resume(s.script, h, h.reply.value) && t.log == s.log)
      || (StaysPut(h, h') && IsQuiet(s, t, i))
  {
    hide Execute, Resume, CommandAt;
  }

  lemma HandlerStepInOrder(s: System, step: Step, i: nat)
    requires Inv(s) && Inv(Apply(s, step)) && i < |s.handlers| && InOrder(s.log, i, s.handlers[i])
    ensures i < |Apply(s, step).handlers| && InOrder(Apply(s, step).log, i, Apply(s, step).handlers[i])
  {
    if IsOwn(step, i) {
      OwnStepMoves(s, step, i);
    } else {
      OtherStepMoves(s, step, i);
      assert StaysPut(s.handlers[i], s.handlers[i]);
    }
    hide Apply, Resume, InOrder, StaysPut, IsOwn;
    var t := Apply(s, step);
    var (h, h') := (s.handlers[i], t.handlers[i]);
    if h.pc.Queued? && t.log == s.log + [Sent(i, h.Command())] && h' == h.(pc := Awaiting, wire := true) {
      SendInOrder(s.log, i, h);
    } else if h.pc.Awaiting? && h.reply.Some? && h' == Resume(s.script, h, h.reply.value) && t.log == s.log {
      assert HandlerOk(t.script, t.log, i, h');
      ResumeInOrder(s.script, s.log, i, h, h.reply.value);
    } else {
      StaysInOrder(s.log, i, h, h');
      if t.log != s.log {
        OthersInOrder(s.log, t.log[|s.log|], i, h');
      }
    }
  }

  /** In every run, what a handler has sent is a front of its protocol, and all of it when a write succeeded. */
  lemma ProtocolKept(script: string, store: Store, steps: seq<Step>)
    ensures
      var s := Reach(script, store, steps);
      && AllInOrder(s)
      && forall i | 0 <= i < |s.handlers| ::
           var h := s.handlers[i];
           && SentBy(s.log, i) <= Protocol(h.op, h.expected)
           && (h.pc.Ended? && h.pc.outcome.Ok? ==> SentBy(s.log, i) == Protocol(h.op, h.expected))
  {
    AllInOrderRun(script, store, steps);
    ReachInv(script, store, steps);
    var s := Reach(script, store, steps);
    forall i | 0 <= i < |s.handlers| && s.handlers[i].pc.Ended? && s.handlers[i].pc.outcome.Ok?
      ensures Place(s.handlers[i].op, s.handlers[i].phase) + 1 == |Protocol(s.handlers[i].op, s.handlers[i].expected)|
    {
      assert HandlerOk(s.script, s.log, i, s.handlers[i]);
      assert InOrder(s.log, i, s.handlers[i]);
    }
    hide Reach, Protocol, SentBy, Place, ShapeOk, Inv;
    forall i | 0 <= i < |s.handlers|
      ensures
        var h := s.handlers[i];
        && SentBy(s.log, i) <= Protocol(h.op, h.expected)
        && (h.pc.Ended? && h.pc.outcome.Ok? ==> SentBy(s.log, i) == Protocol(h.op, h.expected))
    {
      assert InOrder(s.log, i, s.handlers[i]);
    }
  }

  lemma {:induction false} AllInOrderRun(script: string, store: Store, steps: seq<Step>)
    ensures AllInOrder(Reach(script, store, steps))
  {
    if steps != [] {
      var front := steps[..|steps| - 1];
      AllInOrderRun(script, store, front);
      ReachInv(script, store, front);
      ReachInv(script, store, steps);
      hide Apply, Inv, AllInOrder;
      StepInOrder(Reach(script, store, front), steps[|steps| - 1]);
    }
  }
}
