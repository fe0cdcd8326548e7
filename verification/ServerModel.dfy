/**
 The perk/v1 server as a state machine: the frame loop, the spawned handlers,
 the writer task and shutdown, one atomic step at a time. The discipline is that
 of sections 4, 4.1 and 5 of the JSON-RPC 2.0 Specification. Messages and params
 arrive decoded. `Apply` ignores a step that is not enabled, so every step
 sequence is a run.
 */
module ServerModel {
  import opened Errors
  import opened Wrappers

  const U64 := 0x1_0000_0000_0000_0000

  /** An integer id; on the wire it is an i64 or a u64. */
  type RequestId = int

  predicate IsWireId(id: RequestId) {
    -U64 / 2 <= id < U64
  }

  datatype IdField = NoId | Integer(n: RequestId) | NotAnInteger

  datatype Method =
    | NoMethod
    | Initialize
    | BuildTarget
    | Open
    | Close
    | SessionMethod
    | DocumentWrite
    | Cancel
    | UnknownMethod

  /** What each method would decode from the same params. */
  datatype Params = Params(
    isObject: bool, version: Option<nat>, formOk: bool, targetOk: bool,
    closeId: Option<nat>, sessionId: Option<nat>, cancelId: Option<nat>)

  datatype Message =
    | NotAnObject
    | Object(isVersion2: bool, id: IdField, rpc: Method, params: Params)

  datatype Answer = Value | Opened(session: nat) | Error(code: int, kind: ErrorKind)

  datatype Response = Response(id: Option<RequestId>, answer: Answer)

  /** How a handler or an open came out. */
  type Outcome = Result<(), ServiceError>

  function ErrorAnswer(e: ServiceError): Answer {
    Error(e.JsonRpcCode(), e.kind)
  }

  /** A handler task: running, answer fixed, past the sink's open check, answered, removed from the registry. */
  datatype Stage = Running | Decided | Passed | Answered | Removed

  datatype Task = Task(id: RequestId, key: nat, session: nat, stage: Stage, answer: Answer)

  datatype Writer = Idle | Holding(frame: Response) | Writing(frame: Response) | Stopped

  /** How far the frame loop and the shutdown after it have come. */
  datatype Loop = Serving | Opening(id: RequestId) | Ended | Canceled | Closed

  /** `accepted`, `sent` and `issued` are histories: request ids answered for, frames queued, session ids given out. */
  datatype Server = Server(
    loop: Loop, initialized: bool, sessions: set<nat>, nextSessionId: nat,
    inflight: map<nat, nat>, canceled: set<nat>, tasks: seq<Task>,
    open: bool, queue: seq<Response>, writer: Writer, written: seq<Response>,
    accepted: seq<Option<RequestId>>, sent: seq<Response>, issued: seq<nat>)

  function Fresh(): Server {
    Server(Serving, false, {}, 1, map[], {}, [], true, [], Idle, [], [], [], [])
  }

  /** The registry key of a request id: the u64 itself, or the i64 cast to u64, which wraps. */
  function Key(id: RequestId): (key: nat)
    ensures key < U64
  {
    id % U64
  }

  // --- what the frame loop does with a message ------------------------------------------

  datatype Verdict =
    | Ignore
    | Halt
    | Reply(to: Option<RequestId>, answer: Answer)
    | Accept(id: RequestId)
    | StartOpen(id: RequestId)
    | CloseSession(id: RequestId, session: nat)
    | Spawn(id: RequestId, session: nat)
    | CancelKey(key: nat)

  const INVALID_REQUEST := Error(ERR_INVALID_REQUEST, Validation)
  const INVALID_PARAMS := Error(ERR_INVALID_PARAMS, Validation)
  const METHOD_NOT_FOUND := Error(ERR_METHOD_NOT_FOUND, Unsupported)

  function Judge(initialized: bool, sessions: set<nat>, m: Message): Verdict {
    if m.NotAnObject? then Halt
    else match m.id
      case NotAnInteger => Reply(None, INVALID_REQUEST)
      case NoId =>
        if m.isVersion2 && m.rpc.Cancel? && m.params.cancelId.Some? then CancelKey(m.params.cancelId.value) else Ignore
      case Integer(id) =>
        if !m.isVersion2 || m.rpc.NoMethod? then Reply(Some(id), INVALID_REQUEST)
        else if !initialized then
          if !m.rpc.Initialize? then Reply(Some(id), INVALID_REQUEST)
          else if m.params.version.None? then Reply(Some(id), INVALID_PARAMS)
          else if m.params.version.value != 1 then Reply(Some(id), INVALID_REQUEST)
          else Accept(id)
        else match m.rpc
          case NoMethod | Initialize => Reply(Some(id), INVALID_REQUEST)
          case BuildTarget => Reply(Some(id), if m.params.formOk then Value else INVALID_PARAMS)
          case Open => if m.params.targetOk then StartOpen(id) else Reply(Some(id), INVALID_PARAMS)
          case Close =>
            if m.params.closeId.Some? && m.params.closeId.value in sessions
            then CloseSession(id, m.params.closeId.value) else Reply(Some(id), INVALID_PARAMS)
          case SessionMethod =>
            if m.params.isObject && m.params.sessionId.Some? && m.params.sessionId.value in sessions
            then Spawn(id, m.params.sessionId.value) else Reply(Some(id), INVALID_PARAMS)
          case DocumentWrite | Cancel | UnknownMethod => Reply(Some(id), METHOD_NOT_FOUND)
  }

  /** `Sink::send` from the frame loop. */
  function Send(s: Server, r: Response): Server {
    if s.open then s.(queue := s.queue + [r], sent := s.sent + [r]) else s
  }

  /** A request is answered at once. */
  function AnswerNow(s: Server, id: Option<RequestId>, answer: Answer): Server {
    Send(s.(accepted := s.accepted + [id]), Response(id, answer))
  }

  function CancelToken(s: Server, key: nat): Server {
    if key in s.inflight then s.(canceled := s.canceled + {s.inflight[key]}) else s
  }

  function SpawnTask(s: Server, id: RequestId, session: nat): Server {
    s.(accepted := s.accepted + [Some(id)],
       inflight := s.inflight[Key(id) := |s.tasks|],
       tasks := s.tasks + [Task(id, Key(id), session, Running, Value)])
  }

  function Receive(s: Server, m: Message): Server {
    match Judge(s.initialized, s.sessions, m)
    case Ignore => s
    case Halt => s.(loop := Ended)
    case Reply(id, answer) => AnswerNow(s, id, answer)
    case Accept(id) => AnswerNow(s.(initialized := true), Some(id), Value)
    case StartOpen(id) => s.(loop := Opening(id), accepted := s.accepted + [Some(id)])
    case CloseSession(id, session) => AnswerNow(s.(sessions := s.sessions - {session}), Some(id), Value)
    case Spawn(id, session) => SpawnTask(s, id, session)
    case CancelKey(key) => CancelToken(s, key)
  }

  function FinishOpen(s: Server, outcome: Outcome): Server
    requires s.loop.Opening?
  {
    var back := s.(loop := Serving);
    if outcome.Err? then Send(back, Response(Some(s.loop.id), ErrorAnswer(outcome.error)))
    else
      Send(back.(sessions := s.sessions + {s.nextSessionId}, issued := s.issued + [s.nextSessionId],
                 nextSessionId := s.nextSessionId + 1),
           Response(Some(s.loop.id), Opened(s.nextSessionId)))
  }

  // --- the other tasks ----------------------------------------------------------------------

  datatype Step =
    | Deliver(m: Message)
    | OpenReturns(outcome: Outcome)
    | EndOfInput
    | CancelAll
    | CloseSink
    | AbortWriter
    | Finish(task: nat, outcome: Outcome)
    | CheckOpen(task: nat)
    | Push(task: nat)
    | Remove(task: nat)
    | Take
    | Gate
    | WriteOut
    | WriteFails

  /** The answer a finished handler gives: canceled whenever its token is, whatever the outcome. */
  function FinalAnswer(canceled: bool, outcome: Outcome): Answer {
    if canceled then ErrorAnswer(CANCELED)
    else match outcome
      case Ok(_) => Value
      case Err(e) => ErrorAnswer(e)
  }

  function ApplyToTask(s: Server, step: Step, i: nat): Server
    requires i < |s.tasks|
  {
    var task := s.tasks[i];
    match step
    case Finish(_, outcome) =>
      if !task.stage.Running? then s
      else s.(tasks := s.tasks[i := task.(stage := Decided, answer := FinalAnswer(i in s.canceled, outcome))])
    case CheckOpen(_) =>
      if !task.stage.Decided? then s
      else s.(tasks := s.tasks[i := task.(stage := if s.open then Passed else Answered)])
    case Push(_) =>
      if !task.stage.Passed? then s
      else
        var r := Response(Some(task.id), task.answer);
        s.(tasks := s.tasks[i := task.(stage := Answered)], queue := s.queue + [r], sent := s.sent + [r])
    case Remove(_) =>
      if !task.stage.Answered? then s
      else s.(tasks := s.tasks[i := task.(stage := Removed)], inflight := s.inflight - {task.key})
    case _ => s
  }

  function Apply(s: Server, step: Step): Server {
    match step
    case Deliver(m) => if s.loop.Serving? then Receive(s, m) else s
    case OpenReturns(outcome) => if s.loop.Opening? then FinishOpen(s, outcome) else s
    case EndOfInput => if s.loop.Serving? then s.(loop := Ended) else s
    case CancelAll =>
      if s.loop.Ended? then s.(loop := Canceled, canceled := s.canceled + s.inflight.Values) else s
    case CloseSink => if s.loop.Canceled? then s.(loop := Closed, open := false) else s
    case AbortWriter => if s.loop.Closed? then s.(writer := Stopped) else s
    case Finish(i, _) => if i < |s.tasks| then ApplyToTask(s, step, i) else s
    case CheckOpen(i) => if i < |s.tasks| then ApplyToTask(s, step, i) else s
    case Push(i) => if i < |s.tasks| then ApplyToTask(s, step, i) else s
    case Remove(i) => if i < |s.tasks| then ApplyToTask(s, step, i) else s
    case Take =>
      if s.writer.Idle? && s.queue != [] then s.(writer := Holding(s.queue[0]), queue := s.queue[1..]) else s
    case Gate =>
      if s.writer.Holding? then s.(writer := if s.open then Writing(s.writer.frame) else Idle) else s
    case WriteOut =>
      if s.writer.Writing? then s.(writer := Idle, written := s.written + [s.writer.frame]) else s
    case WriteFails => if s.writer.Writing? then s.(writer := Stopped) else s
  }

  function RunAll(s: Server, steps: seq<Step>): Server {
    if steps == [] then s else Apply(RunAll(s, steps[..|steps| - 1]), steps[|steps| - 1])
  }

  function Reach(steps: seq<Step>): Server {
    RunAll(Fresh(), steps)
  }
}
