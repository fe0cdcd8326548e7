/** The registry of requests in flight: when a cancel reaches its request, and when it cannot. */
module CancelLaws {
  import opened Errors
  import opened ServerLaws
  import opened ServerModel
  import opened Wrappers

  /** The registry leads from the request's key to this very request. */
  predicate Registered(s: Server, i: nat)
    requires i < |s.tasks|
  {
    s.tasks[i].key in s.inflight && s.inflight[s.tasks[i].key] == i
  }

  ghost predicate RegistryOk(s: Server) {
    && (forall i | 0 <= i < |s.tasks| && !s.tasks[i].stage.Removed? :: Registered(s, i))
    && (forall key | key in s.inflight :: s.inflight[key] < |s.tasks| && s.tasks[s.inflight[key]].key == key
                                          && !s.tasks[s.inflight[key]].stage.Removed?)
  }

  /** Every unanswered spawned request can be reached by a cancel. */
  ghost predicate AllReachable(s: Server) {
    forall i | 0 <= i < |s.tasks| && IsPending(s.tasks[i]) :: Registered(s, i)
  }

  function Spawned(s: Server, step: Step): Option<RequestId> {
    if step.Deliver? && s.loop.Serving? then
      var verdict := Judge(s.initialized, s.sessions, step.m);
      if verdict.Spawn? then Some(verdict.id) else None
    else None
  }

  /** A spawn takes a key that no request still in the registry has. */
  ghost predicate CleanStep(s: Server, step: Step) {
    var id := Spawned(s, step);
    id.Some? ==> forall i | 0 <= i < |s.tasks| && s.tasks[i].key == Key(id.value) :: s.tasks[i].stage.Removed?
  }

  ghost predicate CleanRun(steps: seq<Step>) {
    steps == [] ||
    var front := steps[..|steps| - 1];
    CleanRun(front) && CleanStep(Reach(front), steps[|steps| - 1])
  }

  /** What one step does to the registry. */
  lemma RegistryMoves(s: Server, step: Step)
    ensures
      var t := Apply(s, step);
      var id := Spawned(s, step);
      if id.Some? then
        && t.inflight == s.inflight[Key(id.value) := |s.tasks|]
        && |t.tasks| == |s.tasks| + 1 && t.tasks[..|s.tasks|] == s.tasks
        && t.tasks[|s.tasks|].stage.Running? && t.tasks[|s.tasks|].key == Key(id.value)
      else
        && |t.tasks| == |s.tasks|
        && (forall i | 0 <= i < |s.tasks| :: t.tasks[i].key == s.tasks[i].key)
        && (if step.Remove? && step.task < |s.tasks| && s.tasks[step.task].stage.Answered? then
              && t.inflight == s.inflight - {s.tasks[step.task].key}
              && t.tasks == s.tasks[step.task := s.tasks[step.task].(stage := Removed)]
            else
              && t.inflight == s.inflight
              && forall i | 0 <= i < |s.tasks| ::
                   && (t.tasks[i].stage.Removed? <==> s.tasks[i].stage.Removed?)
                   && (IsPending(t.tasks[i]) ==> IsPending(s.tasks[i])))
  {
    if step.Deliver? {
      DeliverMovesRegistry(s, step);
      hide Apply, Spawned;
    } else {
      hide Receive, Judge, FinalAnswer, ErrorAnswer;
    }
  }

  lemma DeliverMovesRegistry(s: Server, step: Step)
    requires step.Deliver?
    ensures
      var t := Apply(s, step);
      var id := Spawned(s, step);
      if id.Some? then
        && t.inflight == s.inflight[Key(id.value) := |s.tasks|]
        && |t.tasks| == |s.tasks| + 1 && t.tasks[..|s.tasks|] == s.tasks
        && t.tasks[|s.tasks|].stage.Running? && t.tasks[|s.tasks|].key == Key(id.value)
      else t.inflight == s.inflight && t.tasks == s.tasks
  {
    hide Judge;
  }

  lemma CleanStepKeepsRegistry(s: Server, step: Step)
    requires RegistryOk(s) && CleanStep(s, step)
    ensures RegistryOk(Apply(s, step))
  {
    RegistryMoves(s, step);
    hide Apply, Spawned;
    var t := Apply(s, step);
    var id := Spawned(s, step);
    if id.Some? {
      assert forall i | 0 <= i < |s.tasks| :: t.tasks[i] == s.tasks[i];
    }
  }

  /** As long as no key is taken again too early, every unanswered request has its registry entry. */
  lemma {:induction false} RegistryKept(steps: seq<Step>)
    requires CleanRun(steps)
    ensures RegistryOk(Reach(steps)) && AllReachable(Reach(steps))
  {
    if steps != [] {
      var front := steps[..|steps| - 1];
      RegistryKept(front);
      CleanStepKeepsRegistry(Reach(front), steps[|steps| - 1]);
    }
  }

  /**
   The condition is exact. From a sound registry, a spawn leaves every unanswered
   request within reach of a cancel, now and after any removal, if and only if
   its key belongs to no request still in the registry.
   */
  lemma CleanExactly(s: Server, step: Step)
    requires RegistryOk(s) && Spawned(s, step).Some?
    ensures
      var t := Apply(s, step);
      CleanStep(s, step) <==> AllReachable(t) && forall i: nat :: AllReachable(Apply(t, Remove(i)))
  {
    var t := Apply(s, step);
    var key, n := Key(Spawned(s, step).value), |s.tasks|;
    RegistryMoves(s, step);
    if CleanStep(s, step) {
      CleanStepKeepsRegistry(s, step);
      forall i: nat ensures AllReachable(Apply(t, Remove(i))) {
        RemoveKeepsReach(t, i);
      }
    } else {
      var i: nat :| i < n && s.tasks[i].key == key && !s.tasks[i].stage.Removed?;
      assert t.tasks[i] == s.tasks[i];
      if IsPending(t.tasks[i]) {
        assert !Registered(t, i);
      } else {
        RegistryMoves(t, Remove(i));
        var u := Apply(t, Remove(i));
        assert IsPending(u.tasks[n]) && !Registered(u, n);
        assert !AllReachable(u);
      }
    }
  }

  lemma RemoveKeepsReach(s: Server, i: nat)
    requires RegistryOk(s)
    ensures AllReachable(Apply(s, Remove(i)))
  {
    CleanStepKeepsRegistry(s, Remove(i));
  }

  /** Ids that are never used twice, the condition a host can keep, make every spawn clean. */
  ghost predicate UniqueKeys(tasks: seq<Task>) {
    forall i, j | 0 <= i < j < |tasks| :: tasks[i].key != tasks[j].key
  }

  lemma {:induction false} UniqueKeysAreClean(steps: seq<Step>)
    requires UniqueKeys(Reach(steps).tasks)
    ensures CleanRun(steps)
  {
    if steps != [] {
      var front, step := steps[..|steps| - 1], steps[|steps| - 1];
      var s, t := Reach(front), Reach(steps);
      RegistryMoves(s, step);
      hide Apply;
      assert forall i | 0 <= i < |s.tasks| :: t.tasks[i].key == s.tasks[i].key by {
        if Spawned(s, step).Some? {
          assert forall i | 0 <= i < |s.tasks| :: t.tasks[..|s.tasks|][i] == s.tasks[i];
        }
      }
      UniqueKeysAreClean(front);
      assert CleanStep(s, step);
    }
  }

  /** Two ids share a key exactly when they are 2^64 apart: a negative id and the u64 it is cast to. */
  lemma KeyCollision(a: RequestId, b: RequestId)
    requires IsWireId(a) && IsWireId(b) && a < b
    ensures Key(a) == Key(b) <==> b == a + U64
  {
  }

  // --- cancels ----------------------------------------------------------------------------

  predicate IsCancel(m: Message, key: nat) {
    m.Object? && m.isVersion2 && m.id.NoId? && m.rpc.Cancel? && m.params.cancelId == Some(key)
  }

  /**
   A cancel sets the token of the one request in flight under its id, and nothing
   else; an unknown id changes nothing.
   */
  lemma CancelIsExact(s: Server, m: Message, key: nat)
    requires RegistryOk(s) && s.loop.Serving? && IsCancel(m, key)
    ensures
      var t := Apply(s, Deliver(m));
      && t == s.(canceled := t.canceled)
      && (forall i | 0 <= i < |s.tasks| && !s.tasks[i].stage.Removed? ::
            i in t.canceled <==> i in s.canceled || s.tasks[i].key == key)
      && ((forall i | 0 <= i < |s.tasks| && s.tasks[i].key == key :: s.tasks[i].stage.Removed?) ==> t == s)
  {
  }

  /** The token is set before the handler's final check, or the answer is already the canceled one. */
  predicate WillAnswerCanceled(s: Server, i: nat) {
    && i < |s.tasks| && i in s.canceled
    && (s.tasks[i].stage.Running? || s.tasks[i].answer == Error(ERR_CANCELED, Cancelled))
  }

  lemma CanceledStep(s: Server, step: Step, i: nat)
    requires WillAnswerCanceled(s, i)
    ensures WillAnswerCanceled(Apply(s, step), i)
  {
    hide Judge;
  }

  /** Whatever happens next and whatever the handler returns, its answer is -32800. */
  lemma {:induction false} CanceledAnswer(s: Server, more: seq<Step>, i: nat)
    requires WillAnswerCanceled(s, i)
    ensures WillAnswerCanceled(RunAll(s, more), i)
  {
    if more != [] {
      CanceledAnswer(s, more[..|more| - 1], i);
      CanceledStep(RunAll(s, more[..|more| - 1]), more[|more| - 1], i);
    }
  }

  /** A task whose sending is over has its answer among the frames sent, unless the sink was closed. */
  ghost predicate AnswersSent(s: Server) {
    forall i | 0 <= i < |s.tasks| && (s.tasks[i].stage.Answered? || s.tasks[i].stage.Removed?) ::
      s.open ==> Response(Some(s.tasks[i].id), s.tasks[i].answer) in s.sent
  }

  /** The frame loop spawns handlers and sends, and touches no handler at work. */
  lemma LoopKeepsTasks(s: Server, step: Step)
    requires step.Deliver? || step.OpenReturns?
    ensures
      var t := Apply(s, step);
      && s.sent <= t.sent && t.open == s.open && |s.tasks| <= |t.tasks|
      && (forall i | 0 <= i < |s.tasks| :: t.tasks[i] == s.tasks[i])
      && (forall i | |s.tasks| <= i < |t.tasks| :: t.tasks[i].stage.Running?)
  {
    if step.Deliver? {
      ReceiveKeepsTasks(s, step.m);
      hide Receive;
    } else {
      hide ErrorAnswer;
    }
  }

  lemma ReceiveKeepsTasks(s: Server, m: Message)
    ensures
      var t := Receive(s, m);
      && s.sent <= t.sent && t.open == s.open && |s.tasks| <= |t.tasks|
      && (forall i | 0 <= i < |s.tasks| :: t.tasks[i] == s.tasks[i])
      && (forall i | |s.tasks| <= i < |t.tasks| :: t.tasks[i].stage.Running?)
  {
    hide Judge;
  }

  lemma StepKeepsAnswers(s: Server, step: Step)
    requires AnswersSent(s)
    ensures AnswersSent(Apply(s, step))
  {
    if step.Deliver? || step.OpenReturns? {
      LoopKeepsTasks(s, step);
      hide Apply;
    } else {
      hide FinalAnswer;
    }
    var t := Apply(s, step);
    assert forall r | r in s.sent :: r in t.sent;
  }

  lemma {:induction false} AnswersKept(steps: seq<Step>)
    ensures AnswersSent(Reach(steps))
  {
    if steps != [] {
      AnswersKept(steps[..|steps| - 1]);
      StepKeepsAnswers(Reach(steps[..|steps| - 1]), steps[|steps| - 1]);
    }
  }

  /**
   Cancellation routing: in a run without early key reuse, a cancel naming a
   request whose handler has not made its final check reaches it, and if that
   request is ever answered while the sink is open, the answer is -32800.
   */
  lemma CancelReaches(steps: seq<Step>, m: Message, i: nat, more: seq<Step>)
    requires CleanRun(steps) && Reach(steps).loop.Serving?
    requires i < |Reach(steps).tasks| && Reach(steps).tasks[i].stage.Running? && IsCancel(m, Reach(steps).tasks[i].key)
    ensures
      var t := Reach(steps + [Deliver(m)] + more);
      && i < |t.tasks|
      && (t.tasks[i].stage.Running? || t.tasks[i].answer == Error(ERR_CANCELED, Cancelled))
      && (t.open && (t.tasks[i].stage.Answered? || t.tasks[i].stage.Removed?) ==>
            Response(Some(t.tasks[i].id), Error(ERR_CANCELED, Cancelled)) in t.sent)
  {
    RegistryKept(steps);
    CancelIsExact(Reach(steps), m, Reach(steps).tasks[i].key);
    assert (steps + [Deliver(m)])[..|steps|] == steps;
    var s := Reach(steps + [Deliver(m)]);
    assert WillAnswerCanceled(s, i);
    CanceledAnswer(s, more, i);
    RunAllConcat(Fresh(), steps + [Deliver(m)], more);
    AnswersKept(steps + [Deliver(m)] + more);
  }

  /** Every handler is registered under the key of its own request's id. */
  lemma {:induction false} KeysAreOfIds(steps: seq<Step>)
    ensures forall i | 0 <= i < |Reach(steps).tasks| :: Reach(steps).tasks[i].key == Key(Reach(steps).tasks[i].id)
  {
    if steps != [] {
      var front := steps[..|steps| - 1];
      KeysAreOfIds(front);
      KeyKept(Reach(front), steps[|steps| - 1]);
      hide Apply, Key;
    }
  }

  lemma KeyKept(s: Server, step: Step)
    requires forall i | 0 <= i < |s.tasks| :: s.tasks[i].key == Key(s.tasks[i].id)
    ensures forall i | 0 <= i < |Apply(s, step).tasks| :: Apply(s, step).tasks[i].key == Key(Apply(s, step).tasks[i].id)
  {
    hide Key, Judge, FinalAnswer;
  }

  /** The key of an unsigned id is the id itself, so a host cancels a request by the id it gave it. */
  lemma OwnIdIsKey(id: RequestId)
    requires IsWireId(id)
    ensures Key(id) == if id >= 0 then id else id + 0x1_0000_0000_0000_0000
  {
  }

  lemma CancelByOwnId(steps: seq<Step>, m: Message, i: nat, more: seq<Step>)
    requires CleanRun(steps) && Reach(steps).loop.Serving?
    requires i < |Reach(steps).tasks| && Reach(steps).tasks[i].stage.Running?
    requires 0 <= Reach(steps).tasks[i].id < 0x1_0000_0000_0000_0000 && IsCancel(m, Reach(steps).tasks[i].id)
    ensures
      var t := Reach(steps + [Deliver(m)] + more);
      && i < |t.tasks|
      && (t.tasks[i].stage.Running? || t.tasks[i].answer == Error(-32800, Cancelled))
      && (t.open && (t.tasks[i].stage.Answered? || t.tasks[i].stage.Removed?) ==>
            Response(Some(t.tasks[i].id), Error(-32800, Cancelled)) in t.sent)
  {
    KeysAreOfIds(steps);
    OwnIdIsKey(Reach(steps).tasks[i].id);
    CancelReaches(steps, m, i, more);
  }

  // --- what a handler's outcome becomes ---------------------------------------------------------

  /** The handler's answer is fixed. */
  predicate IsDecided(s: Server, i: nat, id: RequestId, answer: Answer) {
    i < |s.tasks| && !s.tasks[i].stage.Running? && s.tasks[i].id == id && s.tasks[i].answer == answer
  }

  lemma DecidedStep(s: Server, step: Step, i: nat, id: RequestId, answer: Answer)
    requires IsDecided(s, i, id, answer)
    ensures IsDecided(Apply(s, step), i, id, answer)
  {
    hide Judge, FinalAnswer;
  }

  lemma {:induction false} DecidedStays(s: Server, more: seq<Step>, i: nat, id: RequestId, answer: Answer)
    requires IsDecided(s, i, id, answer)
    ensures IsDecided(RunAll(s, more), i, id, answer)
  {
    hide Apply;
    if more != [] {
      DecidedStays(s, more[..|more| - 1], i, id, answer);
      DecidedStep(RunAll(s, more[..|more| - 1]), more[|more| - 1], i, id, answer);
    }
  }

  /**
   A handler that finishes uncanceled is answered with its own outcome, in every
   continuation: a result for a success, and for an error its own kind with its
   own code, or -32603 where it has none. While the output is open that is the
   response sent.
   */
  lemma OutcomeIsAnswered(steps: seq<Step>, i: nat, outcome: Outcome, more: seq<Step>)
    requires
      var s := Reach(steps);
      i < |s.tasks| && s.tasks[i].stage.Running? && i !in s.canceled
    ensures
      var s, t := Reach(steps), Reach(steps + [Finish(i, outcome)] + more);
      var answer :=
        match outcome
        case Ok(_) => Value
        case Err(e) => Error(if e.code.Some? then e.code.value else -32603, e.kind);
      && IsDecided(t, i, s.tasks[i].id, answer)
      && (t.open && (t.tasks[i].stage.Answered? || t.tasks[i].stage.Removed?) ==>
            Response(Some(s.tasks[i].id), answer) in t.sent)
  {
    var s, t := Reach(steps), Reach(steps + [Finish(i, outcome)] + more);
    assert (steps + [Finish(i, outcome)])[..|steps|] == steps;
    var decided := Reach(steps + [Finish(i, outcome)]);
    RunAllConcat(Fresh(), steps + [Finish(i, outcome)], more);
    DecidedStays(decided, more, i, s.tasks[i].id, decided.tasks[i].answer);
    AnswersKept(steps + [Finish(i, outcome)] + more);
  }

  // --- a reused id loses its cancel ---------------------------------------------------------

  function Request(id: RequestId, rpc: Method): Message {
    Object(true, Integer(id), rpc, Params(true, Some(1), true, true, Some(1), Some(1), None))
  }

  function CancelOf(key: nat): Message {
    Object(true, NoId, Cancel, Params(true, None, false, false, None, None, Some(key)))
  }

  lemma RunAllSnoc(s: Server, steps: seq<Step>, step: Step)
    ensures RunAll(s, steps + [step]) == Apply(RunAll(s, steps), step)
  {
    assert (steps + [step])[..|steps|] == steps;
  }

  lemma RunThree(s: Server, a: Step, b: Step, c: Step)
    ensures RunAll(s, [a, b, c]) == Apply(Apply(Apply(s, a), b), c)
  {
    RunAllSnoc(s, [], a);
    RunAllSnoc(s, [a], b);
    RunAllSnoc(s, [a, b], c);
    assert [] + [a] == [a] && [a] + [b] == [a, b] && [a, b] + [c] == [a, b, c];
  }

  /** The handshake and one open session. */
  lemma OpenedSession() returns (steps: seq<Step>)
    ensures
      var s := Reach(steps);
      && s.loop.Serving? && s.initialized && s.sessions == {1} && s.open && s.tasks == []
      && s.inflight == map[] && s.canceled == {}
  {
    var a, b, c := Deliver(Request(1, Initialize)), Deliver(Request(2, Open)), OpenReturns(Ok(()));
    RunThree(Fresh(), a, b, c);
    var s1 := Apply(Fresh(), a);
    assert s1.initialized && s1.loop.Serving? && s1.nextSessionId == 1;
    var s2 := Apply(s1, b);
    assert s2.loop == Opening(2);
    steps := [a, b, c];
  }

  ghost predicate Ready(s: Server) {
    s.loop.Serving? && s.initialized && s.sessions == {1} && s.open && s.canceled == {}
  }

  const ASK := Deliver(Request(7, SessionMethod))

  lemma AskSpawns(s: Server)
    requires Ready(s)
    ensures Apply(s, ASK) == SpawnTask(s, 7, 1)
  {
  }

  /** Request 7 comes in, its handler finishes and passes the sink's check. */
  lemma FirstRound(s: Server)
    requires Ready(s) && s.tasks == [] && s.inflight == map[]
    ensures
      var t := RunAll(s, [ASK, Finish(0, Ok(())), CheckOpen(0)]);
      Ready(t) && t.tasks == [Task(7, 7, 1, Passed, Value)] && t.inflight == map[7 := 0]
  {
    AskSpawns(s);
    RunThree(s, ASK, Finish(0, Ok(())), CheckOpen(0));
  }

  /** The answer goes out, 7 is used again, and only then the first task cleans up. */
  lemma SecondRound(s: Server)
    requires Ready(s) && s.tasks == [Task(7, 7, 1, Passed, Value)] && s.inflight == map[7 := 0]
    ensures
      var t := RunAll(s, [Push(0), ASK, Remove(0)]);
      && Ready(t) && t.tasks == [Task(7, 7, 1, Removed, Value), Task(7, 7, 1, Running, Value)]
      && 7 !in t.inflight && Response(Some(7), Value) in t.sent
  {
    AskSpawns(Apply(s, Push(0)));
    RunThree(s, Push(0), ASK, Remove(0));
    assert Response(Some(7), Value) in Apply(s, Push(0)).sent;
  }

  /**
   The condition is needed. Here the host has its answer to request 7 and uses
   the id again before the first task takes its registry entry away; the entry
   that goes is the second task's, and the cancel of 7 reaches nobody.
   */
  lemma ReusedIdLosesCancel() returns (steps: seq<Step>)
    ensures
      var s := Reach(steps);
      && |s.tasks| == 2 && s.tasks[0].key == s.tasks[1].key == 7
      && s.tasks[1].stage.Running? && 7 !in s.inflight && s.canceled == {}
      && Response(Some(7), Value) in s.sent
  {
    var first := OpenedSession();
    var answer := [ASK, Finish(0, Ok(())), CheckOpen(0)];
    var again := [Push(0), ASK, Remove(0)];
    RunAllConcat(Fresh(), first, answer);
    RunAllConcat(Fresh(), first + answer, again);
    RunAllSnoc(Fresh(), first + answer + again, Deliver(CancelOf(7)));
    steps := first + answer + again + [Deliver(CancelOf(7))];
    hide RunAll;
    FirstRound(Reach(first));
    SecondRound(Reach(first + answer));
  }
}
