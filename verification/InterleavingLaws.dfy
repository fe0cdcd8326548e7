/** What every interleaving of row writes keeps, and what follows for each write. */
module InterleavingLaws {
  import opened Errors
  import opened Interleaving
  import opened RedisStore
  import opened RowWrites
  import opened Utf8
  import opened Wrappers

  // --- the invariant ------------------------------------------------------------------

  predicate ShapeOk(h: Handler) {
    && (h.op.EditsValue() ==>
          (h.expected.Some? <==> h.phase.CheckDestination? || h.phase.Commit?)
          && (h.expected.Some? ==> |h.expected.value| <= MAX_CELL))
    && (!h.op.EditsValue() ==> h.expected.None? && !h.phase.CheckType? && !h.phase.ReadValue?)
    && (h.phase.CheckDestination? ==> h.op.Update? && h.op.Destination() != h.op.key)
  }

  /** The reply, if any, that decided how the handler ended. */
  predicate Decides(script: string, h: Handler, reply: Reply, outcome: Outcome) {
    OnReply(script, h.op, h.phase, h.expected, reply) == Finish(outcome)
  }

  /** The command of the handler's phase has not been sent. */
  predicate HasNotSent(h: Handler) {
    h.pc.Checking? || h.pc.Queued? || h.pc.Refused?
  }

  /** The expected text was read from the source key by this handler. */
  ghost predicate ReadSeen(log: seq<Event>, i: nat, h: Handler) {
    h.expected.Some? ==> Seen(log, i, Get(h.op.key), Bulk(Encode(h.expected.value)))
  }

  ghost predicate HandlerOk(script: string, log: seq<Event>, i: nat, h: Handler) {
    && ShapeOk(h)
    && (HasNotSent(h) || h.pc.Ended? ==> !h.wire)
    && (h.pc.Ended? ==> exists reply :: Seen(log, i, h.Command(), reply) && Decides(script, h, reply, h.pc.outcome))
    && (h.pc.Awaiting? ==> (h.wire <==> h.reply.None?))
    && (h.reply.Some? ==> h.pc.Awaiting? && Seen(log, i, h.Command(), h.reply.value))
    && ReadSeen(log, i, h)
    && (h.wire || HasNotSent(h) || !h.phase.Commit? ==> forall j :: !CommitsAt(log, i, j))
    && (HasNotSent(h) || !h.phase.Commit? ==> !CommitSent(log, i))
    && (CommitSent(log, i) && !h.wire ==> exists j :: CommitsAt(log, i, j))
    && (h.phase.Commit? && h.wire ==> CommitSent(log, i))
  }

  ghost predicate CommitOk(s: System, i: nat, j: int)
    requires CommitsAt(s.log, i, j)
  {
    && i < |s.handlers|
    && var h := s.handlers[i];
    && h.phase.Commit? && s.log[j].command == h.Command()
    && (h.pc.Awaiting? ==> h.reply == Some(s.log[j].reply))
    && (h.pc.Ended? ==> Decides(s.script, h, s.log[j].reply, h.pc.outcome))
    && CommitSent(s.log[..j], i)
    && ReadSeen(s.log[..j], i, h)
    && (forall k | CommitsAt(s.log, i, k) :: k == j)
  }

  ghost predicate Inv(s: System) {
    && (s.lock.Some? ==> s.lock.value < |s.handlers| && s.handlers[s.lock.value].pc.Awaiting?)
    && (forall i | 0 <= i < |s.handlers| :: s.handlers[i].pc.Awaiting? ==> s.lock == Some(i))
    && (forall i | 0 <= i < |s.handlers| :: HandlerOk(s.script, s.log, i, s.handlers[i]))
    && (forall i: nat, j | CommitsAt(s.log, i, j) :: CommitOk(s, i, j))
    && (forall j | 0 <= j < |s.log| && (s.log[j].Executed? || s.log[j].Sent?) :: s.log[j].who < |s.handlers|)
  }

  lemma SeenGrows(log: seq<Event>, e: Event, i: nat, command: Command, reply: Reply)
    requires Seen(log, i, command, reply)
    ensures Seen(log + [e], i, command, reply)
  {
    var j :| SeenAt(log, i, command, reply, j);
    assert SeenAt(log + [e], i, command, reply, j);
  }

  /** A commit is known to be sent from the event of sending it on. */
  lemma CommitSentSnoc(log: seq<Event>, e: Event, i: nat)
    ensures CommitSent(log + [e], i) <==> CommitSent(log, i) || (e.Sent? && e.who == i && !IsRead(e.command))
  {
    if CommitSent(log, i) {
      var j :| CommitSentAt(log, i, j);
      assert CommitSentAt(log + [e], i, j);
    }
    if CommitSent(log + [e], i) {
      var j :| CommitSentAt(log + [e], i, j);
      assert j < |log| ==> CommitSentAt(log, i, j);
    }
    if e.Sent? && e.who == i && !IsRead(e.command) {
      assert CommitSentAt(log + [e], i, |log|);
    }
  }

  /** An event that is not the handler's own commit, sent or run, leaves its account of the log intact. */
  lemma HandlerOkGrows(script: string, log: seq<Event>, e: Event, i: nat, h: Handler)
    requires HandlerOk(script, log, i, h)
    requires (e.Executed? || e.Sent?) && e.who == i ==> IsRead(e.command)
    ensures HandlerOk(script, log + [e], i, h)
  {
    CommitSentSnoc(log, e, i);
    if h.pc.Ended? {
      var reply :| Seen(log, i, h.Command(), reply) && Decides(script, h, reply, h.pc.outcome);
      SeenGrows(log, e, i, h.Command(), reply);
    }
    if h.reply.Some? {
      SeenGrows(log, e, i, h.Command(), h.reply.value);
    }
    if h.expected.Some? {
      SeenGrows(log, e, i, Get(h.op.key), Bulk(Encode(h.expected.value)));
    }
    forall j | CommitsAt(log + [e], i, j) ensures CommitsAt(log, i, j) {
    }
    if j :| CommitsAt(log, i, j) {
      assert CommitsAt(log + [e], i, j);
    }
  }

  lemma CommitOkGrows(s: System, t: System, e: Event, i: nat, j: int)
    requires CommitsAt(s.log, i, j) && CommitOk(s, i, j)
    requires t.log == s.log + [e] && !CommitsAt(t.log, i, |s.log|)
    requires t.script == s.script && |s.handlers| <= |t.handlers| && t.handlers[i] == s.handlers[i]
    ensures CommitOk(t, i, j)
  {
    assert t.log[..j] == s.log[..j];
    forall k | CommitsAt(t.log, i, k) ensures k == j {
      assert CommitsAt(s.log, i, k);
    }
  }

  /** A step that logs nothing and moves one handler to a state that accounts for the same log. */
  lemma QuietStep(s: System, t: System, i: nat)
    requires Inv(s) && i < |s.handlers| && |t.handlers| == |s.handlers|
    requires t.script == s.script && t.log == s.log
    requires forall k | 0 <= k < |s.handlers| && k != i :: t.handlers[k] == s.handlers[k]
    requires HandlerOk(t.script, t.log, i, t.handlers[i])
    requires forall j | CommitsAt(s.log, i, j) :: CommitOk(t, i, j)
    requires if t.handlers[i].pc.Awaiting? then t.lock == s.lock == Some(i)
             else t.lock == if s.lock == Some(i) then None else s.lock
    ensures Inv(t)
  {
    forall k: nat, j | CommitsAt(t.log, k, j) ensures CommitOk(t, k, j) {
      assert CommitOk(s, k, j);
    }
  }

  lemma StartKeeps(s: System, op: RowWrite)
    requires Inv(s)
    ensures Inv(Apply(s, Start(op)))
  {
    var t := Apply(s, Start(op));
    assert forall j :: !CommitsAt(s.log, |s.handlers|, j);
    assert forall j :: !CommitSentAt(s.log, |s.handlers|, j);
    forall k: nat, j | CommitsAt(t.log, k, j) ensures CommitOk(t, k, j) {
      assert CommitOk(s, k, j);
    }
  }

  lemma DisturbKeeps(s: System, after: Store)
    requires Inv(s)
    ensures Inv(Apply(s, Disturb(after)))
  {
    var t := Apply(s, Disturb(after));
    forall k | 0 <= k < |t.handlers| ensures HandlerOk(t.script, t.log, k, t.handlers[k]) {
      HandlerOkGrows(s.script, s.log, Outside(after), k, s.handlers[k]);
    }
    forall k: nat, j | CommitsAt(t.log, k, j) ensures CommitOk(t, k, j) {
      assert CommitsAt(s.log, k, j);
      CommitOkGrows(s, t, Outside(after), k, j);
    }
  }

  lemma CheckKeeps(s: System, i: nat)
    requires Inv(s) && i < |s.handlers| && s.handlers[i].pc.Checking?
    ensures Inv(Apply(s, Check(i)))
  {
    QuietStep(s, Apply(s, Check(i)), i);
  }

  lemma SenderOk(script: string, log: seq<Event>, i: nat, h: Handler)
    requires HandlerOk(script, log, i, h) && h.pc.Queued?
    ensures HandlerOk(script, log + [Sent(i, h.Command())], i, h.(pc := Awaiting, wire := true))
  {
    var e := Sent(i, h.Command());
    CommitSentSnoc(log, e, i);
    if h.expected.Some? {
      SeenGrows(log, e, i, Get(h.op.key), Bulk(Encode(h.expected.value)));
    }
    forall j ensures !CommitsAt(log + [e], i, j) {
      assert !CommitsAt(log, i, j);
    }
  }

  lemma AcquireKeeps(s: System, i: nat)
    requires Inv(s) && i < |s.handlers| && s.handlers[i].pc.Queued? && s.lock.None?
    ensures Inv(Apply(s, Acquire(i)))
  {
    var t := Apply(s, Acquire(i));
    if !s.connected {
      QuietStep(s, t, i);
    } else {
      var e := Sent(i, s.handlers[i].Command());
      forall k | 0 <= k < |t.handlers| ensures HandlerOk(t.script, t.log, k, t.handlers[k]) {
        if k != i {
          HandlerOkGrows(s.script, s.log, e, k, s.handlers[k]);
        } else {
          SenderOk(s.script, s.log, i, s.handlers[i]);
        }
      }
      forall k: nat, j | CommitsAt(t.log, k, j) ensures CommitOk(t, k, j) {
        assert CommitsAt(s.log, k, j);
        CommitOkGrows(s, t, e, k, j);
      }
    }
  }

  lemma RunKeeps(s: System, i: nat)
    requires Inv(s) && i < |s.handlers| && s.handlers[i].wire
    ensures Inv(Apply(s, Run(i)))
  {
    var t := Apply(s, Run(i));
    var h, n := s.handlers[i], |s.log|;
    var e := t.log[n];
    forall k | 0 <= k < |t.handlers| ensures HandlerOk(t.script, t.log, k, t.handlers[k]) {
      if k != i {
        HandlerOkGrows(s.script, s.log, e, k, s.handlers[k]);
      } else {
        if h.expected.Some? {
          SeenGrows(s.log, e, i, Get(h.op.key), Bulk(Encode(h.expected.value)));
        }
        assert SeenAt(t.log, i, h.Command(), e.reply, n);
        CommitSentSnoc(s.log, e, i);
        assert h.phase.Commit? ==> CommitsAt(t.log, i, n);
        forall j | CommitsAt(t.log, i, j) ensures j == n && h.phase.Commit? {
          assert j < n ==> CommitsAt(s.log, i, j);
        }
      }
    }
    forall k: nat, j | CommitsAt(t.log, k, j) ensures CommitOk(t, k, j) {
      if j < n {
        assert CommitsAt(s.log, k, j);
        CommitOkGrows(s, t, e, k, j);
      } else {
        assert t.log[..n] == s.log;
        forall m | CommitsAt(t.log, k, m) ensures m == n {
          assert m < n ==> CommitsAt(s.log, k, m);
        }
      }
    }
  }

  lemma ReceiveKeeps(s: System, i: nat)
    requires Inv(s) && i < |s.handlers| && s.handlers[i].pc.Awaiting? && s.handlers[i].reply.Some?
    ensures Inv(Apply(s, Receive(i)))
  {
    var t := Apply(s, Receive(i));
    var h, h' := s.handlers[i], t.handlers[i];
    var reply := h.reply.value;
    assert OnReply(s.script, h.op, h.phase, h.expected, reply).Finish? ==>
      Decides(s.script, h', reply, h'.pc.outcome) && h'.Command() == h.Command();
    if h'.pc.Checking? && h.phase.ReadValue? {
      DecodeIffEncode(reply.bytes, h'.expected.value);
    }
    forall j | CommitsAt(s.log, i, j) ensures CommitOk(t, i, j) {
      assert CommitOk(s, i, j);
    }
    QuietStep(s, t, i);
  }

  lemma LeaveKeeps(s: System, step: Step, i: nat)
    requires Inv(s) && i < |s.handlers| && (step == Lose(i) || step == Drop(i))
    ensures Inv(Apply(s, step))
  {
    var t := Apply(s, step);
    if t != s {
      forall j | CommitsAt(s.log, i, j) ensures CommitOk(t, i, j) {
        assert CommitOk(s, i, j);
      }
      QuietStep(s, t, i);
    }
  }

  lemma StepKeepsInv(s: System, step: Step)
    requires Inv(s)
    ensures Inv(Apply(s, step))
  {
    var t := Apply(s, step);
    if t == s {
    } else {
      match step
      case Start(op) => StartKeeps(s, op);
      case Close => CloseKeeps(s);
      case Disturb(after) => DisturbKeeps(s, after);
      case Check(i) => CheckKeeps(s, i);
      case Acquire(i) => AcquireKeeps(s, i);
      case Run(i) => RunKeeps(s, i);
      case Receive(i) => ReceiveKeeps(s, i);
      case Lose(i) => LeaveKeeps(s, step, i);
      case Drop(i) => LeaveKeeps(s, step, i);
    }
  }

  lemma CloseKeeps(s: System)
    requires Inv(s)
    ensures Inv(Apply(s, Close))
  {
    var t := Apply(s, Close);
    forall k: nat, j | CommitsAt(t.log, k, j) ensures CommitOk(t, k, j) {
      assert CommitOk(s, k, j);
    }
  }

  /** The invariant holds in every state any interleaving reaches. */
  lemma {:induction false} ReachInv(script: string, store: Store, steps: seq<Step>)
    ensures Inv(Reach(script, store, steps))
  {
    if steps != [] {
      var front := steps[..|steps| - 1];
      ReachInv(script, store, front);
      StepKeepsInv(Reach(script, store, front), steps[|steps| - 1]);
    }
  }
}
