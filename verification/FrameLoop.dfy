/**
 The server's own code: the sink, the request registry, the message handlers, the
 frame loop, a spawned handler's tail and the shutdown. Each method is tied to
 the steps of module ServerModel; uninterrupted code is those steps in a row.
 */
module FrameLoop {
  import opened Errors
  import opened ServerModel
  import opened ServerLaws
  import opened Wrappers

  class Sink {
    var open: bool
    var queue: seq<Response>
    ghost var sent: seq<Response>

    constructor ()
      ensures open && queue == [] && sent == []
    {
      open, queue, sent := true, [], [];
    }

    method Send(r: Response)
      modifies this
      ensures open == old(open)
      ensures queue == old(queue) + (if open then [r] else [])
      ensures sent == old(sent) + (if open then [r] else [])
    {
      if open {
        queue := queue + [r];
        sent := sent + [r];
      }
    }

    method Close()
      modifies this`open
      ensures !open
    {
      open := false;
    }
  }

  class Registry {
    var inflight: map<nat, nat>
    var canceled: set<nat>

    constructor ()
      ensures inflight == map[] && canceled == {}
    {
      inflight, canceled := map[], {};
    }

    method Insert(key: nat, token: nat)
      modifies this`inflight
      ensures inflight == old(inflight)[key := token]
    {
      inflight := inflight[key := token];
    }

    method CancelKey(key: nat)
      modifies this`canceled
      ensures canceled == old(canceled) + if key in inflight then {inflight[key]} else {}
    {
      if key in inflight {
        canceled := canceled + {inflight[key]};
      }
    }

    method CancelAll()
      modifies this`canceled
      ensures canceled == old(canceled) + inflight.Values
    {
      canceled := canceled + inflight.Values;
    }

    method Remove(key: nat)
      modifies this`inflight
      ensures inflight == old(inflight) - {key}
    {
      inflight := inflight - {key};
    }
  }

  class PerkServer {
    const sink: Sink
    const registry: Registry
    var initialized: bool
    var sessions: set<nat>
    var nextSessionId: nat
    var tasks: seq<Task>
    ghost var loop: Loop
    ghost var writer: Writer
    ghost var written: seq<Response>
    ghost var accepted: seq<Option<RequestId>>
    ghost var issued: seq<nat>

    ghost function State(): Server
      reads this, sink, registry
    {
      Server(loop, initialized, sessions, nextSessionId, registry.inflight, registry.canceled, tasks,
             sink.open, sink.queue, writer, written, accepted, sink.sent, issued)
    }

    constructor ()
      ensures State() == Fresh() && fresh(sink) && fresh(registry)
    {
      sink := new Sink();
      registry := new Registry();
      initialized, sessions, nextSessionId, tasks := false, {}, 1, [];
      loop, writer, written, accepted, issued := Serving, Idle, [], [], [];
    }

    /** Sends one direct response to a request. */
    method Respond(id: Option<RequestId>, answer: Answer)
      modifies this`accepted, sink
      ensures State() == AnswerNow(old(State()), id, answer)
    {
      accepted := accepted + [id];
      sink.Send(Response(id, answer));
    }

    method HandleInitialize(params: Params, id: RequestId)
      requires !initialized
      modifies this`initialized, this`accepted, sink
      ensures State() == Receive(old(State()), Object(true, Integer(id), Initialize, params))
    {
      if params.version.None? {
        Respond(Some(id), INVALID_PARAMS);
      } else if params.version.value != 1 {
        Respond(Some(id), INVALID_REQUEST);
      } else {
        initialized := true;
        Respond(Some(id), Value);
      }
    }

    method HandleCancel(params: Params)
      modifies registry
      ensures State() == Receive(old(State()), Object(true, NoId, Cancel, params))
    {
      if params.cancelId.Some? {
        registry.CancelKey(params.cancelId.value);
      }
    }

    /** An open: the factory's outcome arrives while the frame loop waits. */
    method HandleOpen(params: Params, id: RequestId, outcome: Outcome)
      requires initialized && loop.Serving?
      modifies this`sessions, this`nextSessionId, this`loop, this`accepted, this`issued, sink
      ensures State() == Apply(Receive(old(State()), Object(true, Integer(id), Open, params)), OpenReturns(outcome))
    {
      if !params.targetOk {
        Respond(Some(id), INVALID_PARAMS);
        return;
      }
      accepted := accepted + [Some(id)];
      match outcome
      case Err(e) => sink.Send(Response(Some(id), ErrorAnswer(e)));
      case Ok(_) =>
        var session := nextSessionId;
        nextSessionId := nextSessionId + 1;
        sessions := sessions + {session};
        issued := issued + [session];
        sink.Send(Response(Some(id), Opened(session)));
    }

    method HandleClose(params: Params, id: RequestId)
      requires initialized
      modifies this`sessions, this`accepted, sink
      ensures State() == Receive(old(State()), Object(true, Integer(id), Close, params))
    {
      if params.closeId.None? {
        Respond(Some(id), INVALID_PARAMS);
        return;
      }
      var known := params.closeId.value in sessions;
      ghost var before := sessions;
      sessions := sessions - {params.closeId.value};
      if known {
        Respond(Some(id), Value);
      } else {
        assert sessions == before;
        Respond(Some(id), INVALID_PARAMS);
      }
    }

    method SpawnSessionMethod(params: Params, id: RequestId)
      requires initialized
      modifies this`tasks, this`accepted, sink, registry
      ensures State() == Receive(old(State()), Object(true, Integer(id), SessionMethod, params))
    {
      if !params.isObject || params.sessionId.None? || params.sessionId.value !in sessions {
        Respond(Some(id), INVALID_PARAMS);
        return;
      }
      var key := Key(id);
      registry.Insert(key, |tasks|);
      tasks := tasks + [Task(id, key, params.sessionId.value, Running, Value)];
      accepted := accepted + [Some(id)];
    }

    /** One message; false when it ends the frame loop. */
    method HandleMessage(m: Message, openOutcome: Outcome) returns (goOn: bool)
      requires loop.Serving?
      modifies this, sink, registry
      ensures State() == Apply(Receive(old(State()), m), OpenReturns(openOutcome))
      ensures goOn <==> loop.Serving?
    {
      if m.NotAnObject? {
        loop := Ended;
        return false;
      }
      goOn := true;
      if m.id.NotAnInteger? {
        Respond(None, INVALID_REQUEST);
        return;
      }
      if !m.isVersion2 || m.rpc.NoMethod? {
        if m.id.Integer? {
          Respond(Some(m.id.n), INVALID_REQUEST);
        }
        return;
      }
      if m.id.NoId? {
        if m.rpc.Cancel? {
          HandleCancel(m.params);
        }
        return;
      }
      var id := m.id.n;
      if !initialized {
        if m.rpc.Initialize? {
          HandleInitialize(m.params, id);
        } else {
          Respond(Some(id), INVALID_REQUEST);
        }
        return;
      }
      match m.rpc
      case Initialize => Respond(Some(id), INVALID_REQUEST);
      case BuildTarget => Respond(Some(id), if m.params.formOk then Value else INVALID_PARAMS);
      case Open => HandleOpen(m.params, id, openOutcome);
      case Close => HandleClose(m.params, id);
      case SessionMethod => SpawnSessionMethod(m.params, id);
      case DocumentWrite | Cancel | UnknownMethod => Respond(Some(id), METHOD_NOT_FOUND);
    }

    /** The end of a spawned handler: final token check, response, registry entry. */
    method AnswerRequest(i: nat, outcome: Outcome)
      requires i < |tasks| && tasks[i].stage.Running?
      modifies this`tasks, sink, registry
      ensures State() == RunTask(old(State()), i, outcome)
    {
      RunTaskIs(State(), i, outcome);
      hide RunTask;
      var task := tasks[i];
      var answer := if i in registry.canceled then Error(ERR_CANCELED, Cancelled)
                    else if outcome.Ok? then Value else ErrorAnswer(outcome.error);
      assert answer == FinalAnswer(i in registry.canceled, outcome);
      sink.Send(Response(Some(task.id), answer));
      registry.Remove(task.key);
      tasks := tasks[i := task.(stage := Removed, answer := answer)];
    }

    /** Reads messages to the end of the input or to a terminal one, in order, with no other task running. */
    method Serve(messages: seq<Message>, openOutcomes: seq<Outcome>)
      requires loop.Serving? && |openOutcomes| == |messages|
      modifies this, sink, registry
      ensures State() == ServeAll(old(State()), messages, openOutcomes)
      ensures loop.Ended?
    {
      hide ServeAll;
      var i := 0;
      assert messages[0..] == messages && openOutcomes[0..] == openOutcomes;
      while i < |messages|
        invariant 0 <= i <= |messages| && loop.Serving?
        invariant ServeAll(old(State()), messages, openOutcomes) == ServeAll(State(), messages[i..], openOutcomes[i..])
      {
        ServeNext(State(), messages, openOutcomes, i);
        var goOn := HandleMessage(messages[i], openOutcomes[i]);
        hide Apply, Receive;
        if !goOn {
          return;
        }
        i := i + 1;
      }
      ServeEnd(State(), messages[i..], openOutcomes[i..]);
      loop := Ended;
    }

    /** After the loop: cancel everything in flight, gate the output, stop the writer. */
    method Shutdown()
      requires loop.Ended?
      modifies this, sink, registry
      ensures State() == Apply(Apply(Apply(old(State()), CancelAll), CloseSink), AbortWriter)
    {
      registry.CancelAll();
      sink.Close();
      loop, writer := Closed, Stopped;
    }
  }

  function RunTask(s: Server, i: nat, outcome: Outcome): Server {
    Apply(Apply(Apply(Apply(s, Finish(i, outcome)), CheckOpen(i)), Push(i)), Remove(i))
  }

  /** The four steps in a row: one answer, if the output is open, and the registry entry gone. */
  lemma RunTaskIs(s: Server, i: nat, outcome: Outcome)
    requires i < |s.tasks| && s.tasks[i].stage.Running?
    ensures
      var answer := FinalAnswer(i in s.canceled, outcome);
      RunTask(s, i, outcome) ==
        Send(s, Response(Some(s.tasks[i].id), answer))
        .(tasks := s.tasks[i := s.tasks[i].(stage := Removed, answer := answer)],
          inflight := s.inflight - {s.tasks[i].key})
  {
    hide FinalAnswer;
    var s2 := Apply(Apply(s, Finish(i, outcome)), CheckOpen(i));
    var s3 := Apply(s2, Push(i));
    assert s3.tasks[i].stage == Answered;
  }

  function ServeAll(s: Server, messages: seq<Message>, openOutcomes: seq<Outcome>): Server
    requires |openOutcomes| == |messages|
    decreases |messages|
  {
    if !s.loop.Serving? then s
    else if messages == [] then Apply(s, EndOfInput)
    else ServeAll(Apply(Apply(s, Deliver(messages[0])), OpenReturns(openOutcomes[0])), messages[1..], openOutcomes[1..])
  }

  lemma ServeNext(s: Server, messages: seq<Message>, openOutcomes: seq<Outcome>, i: nat)
    requires |openOutcomes| == |messages| && i < |messages| && s.loop.Serving?
    ensures
      var t := Apply(Receive(s, messages[i]), OpenReturns(openOutcomes[i]));
      && ServeAll(s, messages[i..], openOutcomes[i..]) == ServeAll(t, messages[i + 1..], openOutcomes[i + 1..])
      && (!t.loop.Serving? ==> ServeAll(t, messages[i + 1..], openOutcomes[i + 1..]) == t)
  {
    assert messages[i..][1..] == messages[i + 1..] && openOutcomes[i..][1..] == openOutcomes[i + 1..];
  }

  lemma ServeEnd(s: Server, messages: seq<Message>, openOutcomes: seq<Outcome>)
    requires messages == [] && openOutcomes == [] && s.loop.Serving?
    ensures ServeAll(s, messages, openOutcomes) == s.(loop := Ended)
  {
  }

  // --- the frame loop among the other tasks ------------------------------------------------

  /** The steps of an uninterrupted frame loop over the messages. */
  function LoopSteps(messages: seq<Message>, openOutcomes: seq<Outcome>): seq<Step>
    requires |openOutcomes| == |messages|
    decreases |messages|
  {
    if messages == [] then [EndOfInput]
    else [Deliver(messages[0]), OpenReturns(openOutcomes[0])] + LoopSteps(messages[1..], openOutcomes[1..])
  }

  predicate IsLoopStep(step: Step) {
    step.Deliver? || step.OpenReturns? || step.EndOfInput? || step.CancelAll? || step.CloseSink?
  }

  function OnlyLoop(steps: seq<Step>): seq<Step> {
    if steps == [] then []
    else
      var last := steps[|steps| - 1];
      OnlyLoop(steps[..|steps| - 1]) + if IsLoopStep(last) then [last] else []
  }

  /** A stage is the handler's own business; what it was spawned for is the frame loop's. */
  function SpawnedFor(tasks: seq<Task>): seq<(RequestId, nat, nat)> {
    seq(|tasks|, i requires 0 <= i < |tasks| => (tasks[i].id, tasks[i].key, tasks[i].session))
  }

  /** All that the frame loop decides by. */
  datatype LoopView = LoopView(
    loop: Loop, initialized: bool, sessions: set<nat>, nextSessionId: nat, open: bool,
    accepted: seq<Option<RequestId>>, issued: seq<nat>, spawned: seq<(RequestId, nat, nat)>)

  function View(s: Server): LoopView {
    LoopView(s.loop, s.initialized, s.sessions, s.nextSessionId, s.open, s.accepted, s.issued, SpawnedFor(s.tasks))
  }

  lemma LoopStepByView(s: Server, t: Server, step: Step)
    requires View(s) == View(t)
    ensures View(Apply(s, step)) == View(Apply(t, step))
  {
    if step.Deliver? && s.loop.Serving? {
      DeliverByView(s, t, step.m);
    } else if !IsLoopStep(step) {
      OtherStepKeepsView(s, step);
      OtherStepKeepsView(t, step);
      hide Apply;
    } else if step.CancelAll? {
      assert View(Apply(s, step)) == View(s).(loop := if s.loop.Ended? then Canceled else s.loop);
      assert View(Apply(t, step)) == View(t).(loop := if t.loop.Ended? then Canceled else t.loop);
    } else {
      hide Receive;
    }
  }

  lemma DeliverByView(s: Server, t: Server, m: Message)
    requires View(s) == View(t)
    ensures View(Receive(s, m)) == View(Receive(t, m))
  {
    assert |s.tasks| == |SpawnedFor(s.tasks)| == |t.tasks|;
    match Judge(s.initialized, s.sessions, m)
    case Spawn(id, session) =>
      SpawnSnoc(s.tasks, Task(id, Key(id), session, Running, Value));
      SpawnSnoc(t.tasks, Task(id, Key(id), session, Running, Value));
    case _ =>
  }

  lemma SpawnSnoc(tasks: seq<Task>, task: Task)
    ensures SpawnedFor(tasks + [task]) == SpawnedFor(tasks) + [(task.id, task.key, task.session)]
  {
  }

  lemma OtherStepKeepsView(s: Server, step: Step)
    requires !IsLoopStep(step)
    ensures View(Apply(s, step)) == View(s)
  {
    assert SpawnedFor(Apply(s, step).tasks) == SpawnedFor(s.tasks);
  }

  /** However handlers, writer and frame loop interleave, the frame loop does what it would do alone. */
  lemma {:induction false} FrameLoopUndisturbed(steps: seq<Step>)
    ensures View(Reach(steps)) == View(Reach(OnlyLoop(steps)))
  {
    if steps != [] {
      var last := steps[|steps| - 1];
      var front := steps[..|steps| - 1];
      FrameLoopUndisturbed(front);
      if IsLoopStep(last) {
        LoopStepByView(Reach(front), Reach(OnlyLoop(front)), last);
        assert (OnlyLoop(front) + [last])[..|OnlyLoop(front)|] == OnlyLoop(front);
      } else {
        OtherStepKeepsView(Reach(front), last);
        assert OnlyLoop(front) + [] == OnlyLoop(front);
      }
    }
  }

  /** Reading a whole stream uninterrupted is a run of the machine. */
  lemma {:induction false} ServeAllIsARun(s: Server, messages: seq<Message>, openOutcomes: seq<Outcome>)
    requires |openOutcomes| == |messages| && !s.loop.Opening?
    ensures ServeAll(s, messages, openOutcomes) == RunAll(s, LoopSteps(messages, openOutcomes))
    decreases |messages|
  {
    if messages == [] {
      assert [EndOfInput][..0] == [];
    } else {
      var head := [Deliver(messages[0]), OpenReturns(openOutcomes[0])];
      var s1 := Apply(s, head[0]);
      var s2 := Apply(s1, head[1]);
      assert head[..1] == [head[0]] && [head[0]][..0] == [];
      assert RunAll(s, [head[0]]) == s1;
      assert RunAll(s, head) == s2;
      RunAllConcat(s, head, LoopSteps(messages[1..], openOutcomes[1..]));
      ServeAllIsARun(s2, messages[1..], openOutcomes[1..]);
    }
  }

  /** So in any run over these messages the frame loop ends as `Serve` says, handlers or no handlers. */
  lemma ServeAmongHandlers(messages: seq<Message>, openOutcomes: seq<Outcome>, steps: seq<Step>)
    requires |openOutcomes| == |messages| && OnlyLoop(steps) == LoopSteps(messages, openOutcomes)
    ensures View(Reach(steps)) == View(ServeAll(Fresh(), messages, openOutcomes))
  {
    FrameLoopUndisturbed(steps);
    ServeAllIsARun(Fresh(), messages, openOutcomes);
  }
}
