/** What holds in every state the server can reach, and what it means for requests, sessions and cancels. */
module ServerLaws {
  import opened Errors
  import opened ServerModel
  import opened Wrappers

  // --- responses are conserved -----------------------------------------------------------

  predicate IsPending(task: Task) {
    task.stage.Running? || task.stage.Decided? || task.stage.Passed?
  }

  function One(b: bool): nat {
    if b then 1 else 0
  }

  /** Spawned requests with this id that are not yet answered. */
  function PendingFor(tasks: seq<Task>, id: Option<RequestId>): nat {
    if tasks == [] then 0
    else PendingFor(tasks[..|tasks| - 1], id) + ShareFor(tasks[|tasks| - 1], id)
  }

  function ShareFor(task: Task, id: Option<RequestId>): nat {
    One(IsPending(task) && Some(task.id) == id)
  }

  function SentFor(sent: seq<Response>, id: Option<RequestId>): nat {
    if sent == [] then 0 else SentFor(sent[..|sent| - 1], id) + One(sent[|sent| - 1].id == id)
  }

  function AcceptedFor(accepted: seq<Option<RequestId>>, id: Option<RequestId>): nat {
    if accepted == [] then 0
    else AcceptedFor(accepted[..|accepted| - 1], id) + One(accepted[|accepted| - 1] == id)
  }

  /** Everything answered to this id, or still to be answered. */
  function AccountedFor(s: Server, id: Option<RequestId>): nat {
    SentFor(s.sent, id) + PendingFor(s.tasks, id) + One(s.loop.Opening? && Some(s.loop.id) == id)
  }

  predicate Conserved(s: Server, id: Option<RequestId>) {
    && AccountedFor(s, id) <= AcceptedFor(s.accepted, id)
    && (s.open ==> AccountedFor(s, id) == AcceptedFor(s.accepted, id))
    && (s.loop.Serving? || s.loop.Opening? ==> s.open)
  }

  lemma SentSnoc(sent: seq<Response>, r: Response, id: Option<RequestId>)
    ensures SentFor(sent + [r], id) == SentFor(sent, id) + One(r.id == id)
  {
    assert (sent + [r])[..|sent|] == sent;
  }

  lemma AcceptedSnoc(accepted: seq<Option<RequestId>>, a: Option<RequestId>, id: Option<RequestId>)
    ensures AcceptedFor(accepted + [a], id) == AcceptedFor(accepted, id) + One(a == id)
  {
    assert (accepted + [a])[..|accepted|] == accepted;
  }

  lemma PendingSnoc(tasks: seq<Task>, task: Task, id: Option<RequestId>)
    ensures PendingFor(tasks + [task], id) == PendingFor(tasks, id) + ShareFor(task, id)
  {
    assert (tasks + [task])[..|tasks|] == tasks;
  }

  lemma {:induction false} PendingUpdate(tasks: seq<Task>, i: nat, task: Task, id: Option<RequestId>)
    requires i < |tasks|
    ensures PendingFor(tasks[i := task], id) + ShareFor(tasks[i], id) == PendingFor(tasks, id) + ShareFor(task, id)
  {
    var front, last := tasks[..|tasks| - 1], tasks[|tasks| - 1];
    if i < |front| {
      PendingUpdate(front, i, task, id);
      assert tasks[i := task] == front[i := task] + [last];
      PendingSnoc(front[i := task], last, id);
    } else {
      assert tasks[i := task] == front + [task];
      PendingSnoc(front, task, id);
    }
  }

  lemma AnswerNowConserves(s: Server, to: Option<RequestId>, answer: Answer, id: Option<RequestId>)
    requires Conserved(s, id) && s.loop.Serving?
    ensures Conserved(AnswerNow(s, to, answer), id)
  {
    hide SentFor, AcceptedFor, PendingFor;
    SentSnoc(s.sent, Response(to, answer), id);
    AcceptedSnoc(s.accepted, to, id);
  }

  lemma ReceiveConserves(s: Server, m: Message, id: Option<RequestId>)
    requires Conserved(s, id) && s.loop.Serving?
    ensures Conserved(Receive(s, m), id)
  {
    hide SentFor, AcceptedFor, PendingFor;
    hide AnswerNow, Judge;
    match Judge(s.initialized, s.sessions, m)
    case Reply(to, answer) => AnswerNowConserves(s, to, answer, id);
    case Accept(to) => AnswerNowConserves(s.(initialized := true), Some(to), Value, id);
    case CloseSession(to, session) =>
      AnswerNowConserves(s.(sessions := s.sessions - {session}), Some(to), Value, id);
    case Spawn(to, session) =>
      PendingSnoc(s.tasks, Task(to, Key(to), session, Running, Value), id);
      AcceptedSnoc(s.accepted, Some(to), id);
    case StartOpen(to) => AcceptedSnoc(s.accepted, Some(to), id);
    case _ =>
  }

  lemma OpenConserves(s: Server, outcome: Outcome, id: Option<RequestId>)
    requires Conserved(s, id) && s.loop.Opening?
    ensures Conserved(FinishOpen(s, outcome), id)
  {
    hide SentFor, AcceptedFor, PendingFor;
    var t := FinishOpen(s, outcome);
    SentSnoc(s.sent, t.sent[|s.sent|], id);
  }

  lemma TaskStepConserves(s: Server, step: Step, i: nat, id: Option<RequestId>)
    requires Conserved(s, id) && i < |s.tasks|
    ensures Conserved(ApplyToTask(s, step, i), id)
  {
    hide SentFor, AcceptedFor, PendingFor;
    var t := ApplyToTask(s, step, i);
    PendingUpdate(s.tasks, i, t.tasks[i], id);
    assert t.tasks == s.tasks[i := t.tasks[i]];
    SentSnoc(s.sent, Response(Some(s.tasks[i].id), s.tasks[i].answer), id);
  }

  lemma StepConserves(s: Server, step: Step, id: Option<RequestId>)
    requires Conserved(s, id)
    ensures Conserved(Apply(s, step), id)
  {
    hide Receive, FinishOpen, ApplyToTask;
    match step
    case Deliver(m) => if s.loop.Serving? { ReceiveConserves(s, m, id); }
    case OpenReturns(outcome) => if s.loop.Opening? { OpenConserves(s, outcome, id); }
    case Finish(i, _) => if i < |s.tasks| { TaskStepConserves(s, step, i, id); }
    case CheckOpen(i) => if i < |s.tasks| { TaskStepConserves(s, step, i, id); }
    case Push(i) => if i < |s.tasks| { TaskStepConserves(s, step, i, id); }
    case Remove(i) => if i < |s.tasks| { TaskStepConserves(s, step, i, id); }
    case _ =>
  }

  /**
   Response conservation, for each id (None is the null of an invalid id): until
   the sink is closed, as many requests were accepted as responses were sent,
   handlers are still to answer, and opens are in progress; after that never fewer.
   */
  lemma {:induction false} ResponsesConserved(steps: seq<Step>, id: Option<RequestId>)
    ensures Conserved(Reach(steps), id)
  {
    if steps != [] {
      var front := steps[..|steps| - 1];
      ResponsesConserved(front, id);
      StepConserves(Reach(front), steps[|steps| - 1], id);
    }
  }

  /** A message counts as one request when it carries an id, and as none, with no response, when it does not. */
  lemma OneRequestPerId(s: Server, m: Message)
    ensures
      var t := Receive(s, m);
      match m
      case NotAnObject => t == s.(loop := Ended)
      case Object(_, NoId, _, _) => t == s.(canceled := t.canceled)
      case Object(_, Integer(id), _, _) => t.accepted == s.accepted + [Some(id)]
      case Object(_, NotAnInteger, _, _) => t.accepted == s.accepted + [None]
  {
  }

  /** Only a cancel notification does anything: every other message without an id is passed over. */
  lemma NotificationsIgnored(s: Server, m: Message)
    requires m.Object? && m.id.NoId? && !(m.isVersion2 && m.rpc.Cancel? && m.params.cancelId.Some?)
    ensures Receive(s, m) == s
  {
  }

  /** The id by which a delivered message asks for a response; a message without one asks for none. */
  function RequestOf(s: Server, step: Step): seq<Option<RequestId>> {
    if !s.loop.Serving? || !step.Deliver? || step.m.NotAnObject? then []
    else match step.m.id
      case NoId => []
      case Integer(id) => [Some(id)]
      case NotAnInteger => [None]
  }

  function Requests(steps: seq<Step>): seq<Option<RequestId>> {
    if steps == [] then []
    else
      var front := steps[..|steps| - 1];
      Requests(front) + RequestOf(Reach(front), steps[|steps| - 1])
  }

  lemma AcceptedMoves(s: Server, step: Step)
    ensures Apply(s, step).accepted == s.accepted + RequestOf(s, step)
  {
    if step.Deliver? && s.loop.Serving? {
      OneRequestPerId(s, step.m);
    }
    hide Receive;
    assert s.accepted + [] == s.accepted;
  }

  /** Over every run: the accepted requests are exactly the messages with an id delivered while serving, in order. */
  lemma {:induction false} AcceptedAreRequests(steps: seq<Step>)
    ensures Reach(steps).accepted == Requests(steps)
  {
    if steps != [] {
      var front := steps[..|steps| - 1];
      AcceptedAreRequests(front);
      AcceptedMoves(Reach(front), steps[|steps| - 1]);
      hide Apply, RequestOf;
    }
  }

  // --- sessions ---------------------------------------------------------------------------

  ghost predicate SessionsOk(s: Server) {
    && s.nextSessionId == |s.issued| + 1
    && (forall i | 0 <= i < |s.issued| :: s.issued[i] == i + 1)
    && (forall i | 0 <= i < |s.issued| :: 1 <= s.issued[i] < s.nextSessionId)
    && (forall i, j | 0 <= i < j < |s.issued| :: s.issued[i] < s.issued[j])
    && (forall id | id in s.sessions :: id in s.issued)
    && (!s.initialized ==> s.issued == [] && s.tasks == [] && !s.loop.Opening?)
    && 1 <= s.nextSessionId
  }

  lemma DeliverKeepsSessions(s: Server, m: Message)
    requires SessionsOk(s)
    ensures SessionsOk(Receive(s, m))
  {
    var t := Receive(s, m);
    assert t.issued == s.issued && t.sessions <= s.sessions && t.nextSessionId == s.nextSessionId;
  }

  lemma OpenKeepsSessions(s: Server, outcome: Outcome)
    requires SessionsOk(s) && s.loop.Opening?
    ensures SessionsOk(FinishOpen(s, outcome))
  {
    hide ErrorAnswer;
  }

  lemma OtherStepKeepsSessions(s: Server, step: Step)
    requires !step.Deliver? && !step.OpenReturns?
    ensures
      var t := Apply(s, step);
      && t.issued == s.issued && t.sessions == s.sessions && t.nextSessionId == s.nextSessionId
      && |t.tasks| == |s.tasks| && t.initialized == s.initialized && (t.loop.Opening? ==> s.loop.Opening?)
  {
    hide FinalAnswer;
  }

  lemma StepKeepsSessions(s: Server, step: Step)
    requires SessionsOk(s)
    ensures SessionsOk(Apply(s, step))
  {
    if step.Deliver? {
      DeliverKeepsSessions(s, step.m);
      hide Receive, Judge, SessionsOk;
    } else if step.OpenReturns? {
      if s.loop.Opening? {
        OpenKeepsSessions(s, step.outcome);
      }
      hide FinishOpen, SessionsOk;
    } else {
      OtherStepKeepsSessions(s, step);
      hide Apply;
    }
  }

  /**
   Session ids are issued 1, 2, 3 and so on, so never twice; every live session
   has an issued id below the next one; nothing is issued, opened or spawned
   before the handshake.
   */
  lemma {:induction false} SessionLifecycle(steps: seq<Step>)
    ensures SessionsOk(Reach(steps))
  {
    if steps != [] {
      var front := steps[..|steps| - 1];
      SessionLifecycle(front);
      StepKeepsSessions(Reach(front), steps[|steps| - 1]);
    }
  }

  /** The handshake is passed by a request to initialize with version 1, and by nothing else. */
  lemma HandshakeGate(s: Server, step: Step)
    requires !s.initialized
    ensures Apply(s, step).initialized <==>
            && s.loop.Serving? && step.Deliver? && step.m.Object? && step.m.isVersion2
            && step.m.id.Integer? && step.m.rpc.Initialize? && step.m.params.version == Some(1)
  {
  }

  /**
   A refusal is only a refusal: when the frame loop answers a message with an
   error, sessions, registry, tokens, handlers and handshake are as before.
   */
  lemma RefusalChangesNothing(s: Server, m: Message)
    requires s.open && |Receive(s, m).sent| > |s.sent| && Receive(s, m).sent[|s.sent|].answer.Error?
    ensures
      var t := Receive(s, m);
      t == s.(accepted := t.accepted, sent := t.sent, queue := t.queue)
  {
  }

  /** Where the frame loop answers with an error: the code tells at which stage the message was refused. */
  lemma RefusalCodes(s: Server, m: Message, code: int)
    requires s.open && m.Object? && !m.id.NoId?
    ensures
      var t := Receive(s, m);
      var wellFormed := m.id.Integer? && m.isVersion2 && !m.rpc.NoMethod?;
      |t.sent| > |s.sent| && t.sent[|s.sent|].answer.Error? && t.sent[|s.sent|].answer.code == code <==>
        || (code == -32600
            && (!wellFormed || s.initialized == m.rpc.Initialize?
                || (!s.initialized && m.params.version.Some? && m.params.version != Some(1))))
        || (code == -32601 && wellFormed && s.initialized
            && (m.rpc.DocumentWrite? || m.rpc.Cancel? || m.rpc.UnknownMethod?))
        || (code == -32602 && wellFormed && s.initialized != m.rpc.Initialize?
            && match m.rpc
               case Initialize => m.params.version.None?
               case BuildTarget => !m.params.formOk
               case Open => !m.params.targetOk
               case Close => m.params.closeId.None? || m.params.closeId.value !in s.sessions
               case SessionMethod =>
                 !m.params.isObject || m.params.sessionId.None? || m.params.sessionId.value !in s.sessions
               case _ => false)
    ensures
      var t := Receive(s, m);
      |t.sent| > |s.sent| && t.sent[|s.sent|].answer.Error? ==>
        && t.sent[|s.sent|].answer.kind == (if t.sent[|s.sent|].answer.code == -32601 then Unsupported else Validation)
        && t.sent[|s.sent|].id == (if m.id.Integer? then Some(m.id.n) else None)
  {
  }

  predicate WasClosed(s: Server, id: nat) {
    id in s.issued && id !in s.sessions
  }

  lemma ClosedStep(s: Server, step: Step, id: nat)
    requires SessionsOk(s) && WasClosed(s, id)
    ensures WasClosed(Apply(s, step), id)
  {
    hide Receive;
    if step.Deliver? && s.loop.Serving? {
      ReceiveKeepsClosed(s, step.m, id);
    }
  }

  lemma ReceiveKeepsClosed(s: Server, m: Message, id: nat)
    requires WasClosed(s, id)
    ensures WasClosed(Receive(s, m), id)
  {
    var t := Receive(s, m);
    assert t.issued == s.issued && t.sessions <= s.sessions;
  }

  /** A session once closed stays closed, whatever is opened after it. */
  lemma {:induction false} ClosedForGood(steps: seq<Step>, more: seq<Step>, id: nat)
    requires WasClosed(Reach(steps), id)
    ensures WasClosed(RunAll(Reach(steps), more), id) && SessionsOk(RunAll(Reach(steps), more))
  {
    if more == [] {
      SessionLifecycle(steps);
    } else {
      var front := more[..|more| - 1];
      ClosedForGood(steps, front, id);
      hide Apply;
      ClosedStep(RunAll(Reach(steps), front), more[|more| - 1], id);
      StepKeepsSessions(RunAll(Reach(steps), front), more[|more| - 1]);
    }
  }

  /** And every later close or session request that names it is answered -32602 and runs nothing. */
  lemma ClosedSessionRefused(steps: seq<Step>, more: seq<Step>, id: nat, m: Message)
    requires WasClosed(Reach(steps), id) && RunAll(Reach(steps), more).loop.Serving?
    requires m.Object? && m.isVersion2 && m.id.Integer?
    requires (m.rpc.Close? && m.params.closeId == Some(id)) || (m.rpc.SessionMethod? && m.params.sessionId == Some(id))
    ensures
      var s := RunAll(Reach(steps), more);
      var t := Apply(s, Deliver(m));
      && t.tasks == s.tasks && t.sessions == s.sessions
      && t.sent == s.sent + [Response(Some(m.id.n), Error(ERR_INVALID_PARAMS, Validation))]
  {
    ClosedForGood(steps, more, id);
    ServingIsOpen(steps, more);
    IssuedMeansInitialized(steps, more);
  }

  /** A close of a live session closes it: the session is gone, nothing else is, and the answer is the null result. */
  lemma CloseCloses(steps: seq<Step>, m: Message, k: nat)
    requires
      var s := Reach(steps);
      && s.loop.Serving? && s.initialized && k in s.sessions
      && m.Object? && m.isVersion2 && m.id.Integer? && m.rpc.Close? && m.params.closeId == Some(k)
    ensures
      var s, t := Reach(steps), Reach(steps + [Deliver(m)]);
      && WasClosed(t, k) && t.sessions == s.sessions - {k} && t.issued == s.issued
      && t.sent == s.sent + [Response(Some(m.id.n), Value)]
      && t.loop.Serving? && t.tasks == s.tasks && t.inflight == s.inflight && t.canceled == s.canceled
  {
    SessionLifecycle(steps);
    assert (steps + [Deliver(m)])[..|steps|] == steps;
    ServingIsOpen(steps, []);
  }

  /** After it, in every continuation, a second close and every session method on it are answered -32602. */
  lemma ClosedThenRefused(steps: seq<Step>, m: Message, k: nat, more: seq<Step>, later: Message)
    requires
      var s := Reach(steps);
      && s.loop.Serving? && s.initialized && k in s.sessions
      && m.Object? && m.isVersion2 && m.id.Integer? && m.rpc.Close? && m.params.closeId == Some(k)
    requires RunAll(Reach(steps + [Deliver(m)]), more).loop.Serving?
    requires later.Object? && later.isVersion2 && later.id.Integer?
    requires
      || (later.rpc.Close? && later.params.closeId == Some(k))
      || (later.rpc.SessionMethod? && later.params.sessionId == Some(k))
    ensures
      var u := RunAll(Reach(steps + [Deliver(m)]), more);
      var v := Apply(u, Deliver(later));
      && v.tasks == u.tasks && v.sessions == u.sessions
      && v.sent == u.sent + [Response(Some(later.id.n), Error(-32602, Validation))]
  {
    CloseCloses(steps, m, k);
    ClosedSessionRefused(steps + [Deliver(m)], more, k, later);
  }

  /**
   An open whose target is well formed waits for its factory. When that succeeds,
   a session that was not there is live under the id the response carries, and
   when it fails there is no new session and the response is its error.
   */
  lemma OpenOpens(steps: seq<Step>, m: Message, outcome: Outcome)
    requires
      var s := Reach(steps);
      && s.loop.Serving? && s.initialized
      && m.Object? && m.isVersion2 && m.id.Integer? && m.rpc.Open? && m.params.targetOk
    ensures
      var s := Reach(steps);
      var waiting := Apply(s, Deliver(m));
      var t := Apply(waiting, OpenReturns(outcome));
      && waiting == s.(loop := Opening(m.id.n), accepted := s.accepted + [Some(m.id.n)])
      && t.loop.Serving? && t.tasks == s.tasks
      && match outcome
         case Ok(_) =>
           var n := |s.issued| + 1;
           && n !in s.sessions && t.sessions == s.sessions + {n} && t.issued == s.issued + [n]
           && t.sent == s.sent + [Response(Some(m.id.n), Opened(n))]
         case Err(e) =>
           && t.sessions == s.sessions && t.issued == s.issued
           && t.sent == s.sent + [Response(Some(m.id.n), Error(if e.code.Some? then e.code.value else -32603, e.kind))]
  {
    SessionLifecycle(steps);
    ServingIsOpen(steps, []);
  }

  /** A session method on a live session starts one handler for it, under the request's own key, unanswered yet. */
  lemma SpawnSpawns(s: Server, m: Message)
    requires s.loop.Serving? && s.initialized
    requires m.Object? && m.isVersion2 && m.id.Integer? && m.rpc.SessionMethod?
    requires m.params.isObject && m.params.sessionId.Some? && m.params.sessionId.value in s.sessions
    ensures
      var t := Apply(s, Deliver(m));
      var n := |s.tasks|;
      && |t.tasks| == n + 1 && t.tasks[..n] == s.tasks
      && t.tasks[n].id == m.id.n && t.tasks[n].session == m.params.sessionId.value && t.tasks[n].stage.Running?
      && t.inflight == s.inflight[Key(m.id.n) := n] && t.tasks[n].key == Key(m.id.n)
      && t.sent == s.sent && t.sessions == s.sessions && t.canceled == s.canceled
  {
  }

  /** The handshake and a well-formed target form are answered with a result at once. */
  lemma ResultsAtOnce(s: Server, m: Message)
    requires s.loop.Serving? && s.open && m.Object? && m.isVersion2 && m.id.Integer?
    requires
      || (!s.initialized && m.rpc.Initialize? && m.params.version == Some(1))
      || (s.initialized && m.rpc.BuildTarget? && m.params.formOk)
    ensures
      var t := Apply(s, Deliver(m));
      && t.sent == s.sent + [Response(Some(m.id.n), Value)] && t.initialized
      && t.sessions == s.sessions && t.tasks == s.tasks && t.inflight == s.inflight && t.canceled == s.canceled
  {
  }

  lemma {:induction false} RunAllConcat(s: Server, first: seq<Step>, then_: seq<Step>)
    ensures RunAll(s, first + then_) == RunAll(RunAll(s, first), then_)
  {
    hide Apply;
    if then_ == [] {
      assert first + then_ == first;
    } else {
      var front := then_[..|then_| - 1];
      RunAllConcat(s, first, front);
      assert (first + then_)[..|first + then_| - 1] == first + front;
    }
  }

  lemma ServingIsOpen(steps: seq<Step>, more: seq<Step>)
    requires RunAll(Reach(steps), more).loop.Serving?
    ensures RunAll(Reach(steps), more).open
  {
    RunAllConcat(Fresh(), steps, more);
    ResponsesConserved(steps + more, None);
  }

  lemma IssuedMeansInitialized(steps: seq<Step>, more: seq<Step>)
    requires RunAll(Reach(steps), more).issued != []
    ensures RunAll(Reach(steps), more).initialized
  {
    RunAllConcat(Fresh(), steps, more);
    SessionLifecycle(steps + more);
  }
}
