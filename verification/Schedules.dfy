/** Particular schedules: what the interleaved machine can do, not only what it cannot. */
module Schedules {
  import opened Interleaving
  import opened RedisStore
  import opened RowWrites
  import opened Wrappers

  lemma {:induction false} RunAllConcat(s: System, first: seq<Step>, then_: seq<Step>)
    ensures RunAll(s, first + then_) == RunAll(RunAll(s, first), then_)
  {
    hide Apply;
    if then_ == [] {
      assert first + then_ == first;
    } else {
      var front := then_[..|then_| - 1];
      RunAllConcat(s, first, front);
      assert (first + then_)[..|first + then_| - 1] == first + front;
    }
  }

  lemma RunTwo(s: System, a: Step, b: Step)
    ensures RunAll(s, [a, b]) == Apply(Apply(s, a), b)
  {
    assert [a][..0] == [] && RunAll(s, [a]) == Apply(s, a);
    assert [a, b][..1] == [a];
  }

  /** A handler about to send on an open session with an idle connection. */
  predicate Idle(s: System, i: nat) {
    && i < |s.handlers| && s.handlers[i].pc.Checking? && !s.handlers[i].wire && s.handlers[i].reply.None?
    && !s.closed && s.connected && s.lock.None?
  }

  /** One command, undisturbed. */
  lemma OneCommand(s: System, i: nat)
    requires Idle(s, i)
    ensures
      var h := s.handlers[i];
      var after := Execute(s.store, h.Command());
      var t := RunAll(s, [Check(i), Acquire(i)] + [Run(i), Receive(i)]);
      && t.store == after.store && t.script == s.script && |t.handlers| == |s.handlers|
      && !t.closed && t.connected && t.lock.None?
      && t.handlers[i] == Resume(s.script, h, after.reply)
  {
    var h := s.handlers[i];
    var mid := Put(s, i, h.(pc := Awaiting, wire := true)).(lock := Some(i), log := s.log + [Sent(i, h.Command())]);
    RunTwo(s, Check(i), Acquire(i));
    assert RunAll(s, [Check(i), Acquire(i)]).handlers[i] == mid.handlers[i];
    RunTwo(RunAll(s, [Check(i), Acquire(i)]), Run(i), Receive(i));
    RunAllConcat(s, [Check(i), Acquire(i)], [Run(i), Receive(i)]);
  }

  /** A handler left alone does what the write alone does. */
  lemma {:induction false} LoneHandler(s: System, i: nat) returns (steps: seq<Step>)
    requires Idle(s, i)
    requires s.handlers[i].phase.CheckType? ==> s.handlers[i].op.EditsValue()
    decreases Rank(s.handlers[i].phase)
    ensures
      var h := s.handlers[i];
      var t := RunAll(s, steps);
      && |t.handlers| == |s.handlers| && t.handlers[i].pc.Ended?
      && (t.store, t.handlers[i].pc.outcome) == SoloFrom(s.script, s.store, h.op, h.phase, h.expected)
  {
    var h := s.handlers[i];
    OneCommand(s, i);
    steps := [Check(i), Acquire(i)] + [Run(i), Receive(i)];
    var t := RunAll(s, steps);
    if !t.handlers[i].pc.Ended? {
      var more := LoneHandler(t, i);
      RunAllConcat(s, steps, more);
      steps := steps + more;
    }
  }

  /** Some run of the machine is the write alone: `Solo` is one of the interleavings. */
  lemma SoloIsARun(script: string, store: Store, op: RowWrite) returns (steps: seq<Step>)
    ensures
      var s := Reach(script, store, steps);
      && |s.handlers| == 1 && s.handlers[0].pc.Ended?
      && (s.store, s.handlers[0].pc.outcome) == Solo(script, store, op)
  {
    var init := Initial(script, store);
    var s := Apply(init, Start(op));
    var more := LoneHandler(s, 0);
    assert [Start(op)][..0] == [] && RunAll(init, [Start(op)]) == s;
    RunAllConcat(init, [Start(op)], more);
    steps := [Start(op)] + more;
  }
}
