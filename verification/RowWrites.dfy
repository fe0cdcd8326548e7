/**
 Row writes over the keys table. `Program` below cuts each write into the Redis
 commands it sends, one at a time, so that other clients can be put in between
 (module Interleaving); class `RedisService` is the same code running alone.
 */
module RowWrites {
  import opened Errors
  import opened RedisStore
  import opened Statements
  import opened Utf8
  import opened Wrappers

  const MAX_CELL := 300

  datatype RowWrite =
    | Delete(key: string)
    | Update(key: string, renameTo: Option<string>, newValue: Option<string>)
    | Insert(key: string, value: string)
  {
    function Destination(): string {
      if Update? && renameTo.Some? then renameTo.value else key
    }

    predicate EditsValue() {
      Update? && newValue.Some?
    }
  }

  /** What a successful write reports. */
  datatype Written = Written(rowsAffected: nat, statement: string)

  type Outcome = Result<Written, ErrorKind>

  predicate Contains(text: string, part: string) {
    exists i | 0 <= i <= |text| :: part <= text[i..]
  }

  /** The words that make a text an authentication failure. */
  predicate NamesAuthentication(text: string) {
    Contains(text, "NOAUTH") || Contains(text, "WRONGPASS")
  }

  /** The kind of a Redis error reply, told from its text. */
  function MapRedisError(text: string): ErrorKind {
    if NamesAuthentication(text) then Authentication else Operation
  }

  // --- the program of a row write ---------------------------------------------

  /** The command a write is about to send. */
  datatype Phase = CheckType | ReadValue | CheckDestination | Commit

  function Rank(phase: Phase): nat {
    match phase
    case CheckType => 3
    case ReadValue => 2
    case CheckDestination => 1
    case Commit => 0
  }

  /** The phase after the value checks. */
  function LaterPhase(op: RowWrite): Phase {
    if op.Update? && op.Destination() != op.key then CheckDestination else Commit
  }

  function FirstPhase(op: RowWrite): Phase {
    if op.EditsValue() then CheckType else LaterPhase(op)
  }

  function CommitCommand(op: RowWrite, expected: Option<string>): Command {
    match op
    case Delete(key) => Del(key)
    case Insert(key, value) => SetNx(key, value)
    case Update(key, _, value) =>
      Eval(key, op.Destination(), value.Some?,
           if expected.Some? then expected.value else "", if value.Some? then value.value else "")
  }

  function CommandAt(op: RowWrite, phase: Phase, expected: Option<string>): Command {
    match phase
    case CheckType => Type(op.key)
    case ReadValue => Get(op.key)
    case CheckDestination => Exists(op.Destination())
    case Commit => CommitCommand(op, expected)
  }

  datatype Verdict =
    | Continue(phase: Phase, expected: Option<string>)
    | Finish(outcome: Outcome)

  /** A value may be edited when it is valid UTF-8 that the display shows in full. */
  function EditableText(bytes: Bytes): Option<string> {
    var text := Decode(bytes);
    if text.Some? && |text.value| <= MAX_CELL then text else None
  }

  function CommitVerdict(op: RowWrite, reply: Reply, statement: string): Outcome {
    if reply.Fail? then Err(MapRedisError(reply.text))
    else if op.Insert? then
      if reply.Nil? then Err(Operation) else Ok(Written(1, statement))
    else if reply.Int? then Ok(Written(if reply.n > 0 then reply.n else 0, statement))
    else Err(Operation)
  }

  function StatementOf(script: string, command: Command): string {
    RenderCommand(Tokens(script, command))
  }

  function OnReply(script: string, op: RowWrite, phase: Phase, expected: Option<string>, reply: Reply): Verdict {
    if phase.Commit? then
      Finish(CommitVerdict(op, reply, StatementOf(script, CommitCommand(op, expected))))
    else if reply.Fail? then Finish(Err(MapRedisError(reply.text)))
    else match phase
      case CheckType =>
        if reply == Status("string") then Continue(ReadValue, expected) else Finish(Err(Operation))
      case ReadValue =>
        if !reply.Bulk? || EditableText(reply.bytes).None? then Finish(Err(Operation))
        else Continue(LaterPhase(op), EditableText(reply.bytes))
      case CheckDestination =>
        if !reply.Int? || reply.n > 0 then Finish(Err(Operation)) else Continue(Commit, expected)
  }

  /** The program run from a phase with nobody else on the store. */
  function SoloFrom(
    script: string, store: Store, op: RowWrite, phase: Phase, expected: Option<string>
  ): (Store, Outcome)
    decreases Rank(phase)
  {
    var after := Execute(store, CommandAt(op, phase, expected));
    var verdict := OnReply(script, op, phase, expected, after.reply);
    if verdict.Finish? then (after.store, verdict.outcome)
    else if Rank(verdict.phase) < Rank(phase) then
      SoloFrom(script, after.store, op, verdict.phase, verdict.expected)
    else assert false; (store, Err(Operation))
  }

  function Solo(script: string, store: Store, op: RowWrite): (Store, Outcome) {
    SoloFrom(script, store, op, FirstPhase(op), None)
  }

  // --- what a row write means --------------------------------------------------

  /** The declared meaning of an update: when it is allowed. */
  predicate MayUpdate(store: Store, op: RowWrite)
    requires op.Update?
  {
    var s, d := Encode(op.key), Encode(op.Destination());
    && s in store
    && (d == s || d !in store)
    && (op.newValue.Some? ==> store[s].Str? && EditableText(store[s].bytes).Some?)
  }

  predicate Accepted(store: Store, op: RowWrite) {
    match op
    case Delete(_) => true
    case Insert(key, _) => Encode(key) !in store
    case Update(_, _, _) => MayUpdate(store, op)
  }

  /** The declared meaning of an accepted write: the row moved, replaced, added or removed. */
  function Applied(store: Store, op: RowWrite): Store
    requires Accepted(store, op)
  {
    match op
    case Delete(key) => store - {Encode(key)}
    case Insert(key, value) => store[Encode(key) := Str(Encode(value))]
    case Update(key, _, value) =>
      var s := Encode(key);
      (store - {s})[Encode(op.Destination()) := if value.Some? then Str(Encode(value.value)) else store[s]]
  }

  function RowsAffected(store: Store, op: RowWrite): nat {
    if op.Delete? && Encode(op.key) !in store then 0 else 1
  }

  /** Row by row: what is where after an allowed write. */
  lemma AppliedRows(store: Store, op: RowWrite)
    requires Accepted(store, op)
    ensures
      var after, s := Applied(store, op), Encode(op.key);
      match op
      case Delete(_) =>
        && s !in after
        && forall k | k != s :: (k in after <==> k in store) && (k in store ==> after[k] == store[k])
      case Insert(_, value) =>
        && s !in store && s in after && after[s] == Str(Encode(value))
        && forall k | k != s :: (k in after <==> k in store) && (k in store ==> after[k] == store[k])
      case Update(_, renameTo, newValue) =>
        var d := Encode(if renameTo.Some? then renameTo.value else op.key);
        && s in store && d in after && (d != s ==> s !in after && d !in store)
        && after[d] == (if newValue.Some? then Str(Encode(newValue.value)) else store[s])
        && forall k | k != s && k != d :: (k in after <==> k in store) && (k in store ==> after[k] == store[k])
  {
    hide Encode, EditableText;
  }

  /** A value may be edited when it is the UTF-8 of a text of at most 300 characters. */
  lemma EditableIs(bytes: Bytes, text: string)
    ensures EditableText(bytes) == Some(text) <==> bytes == Encode(text) && |text| <= 300
  {
    DecodeIffEncode(bytes, text);
  }

  /** An error reply that holds one of the two words is an authentication failure, any other an operation one. */
  lemma ErrorKindIs(text: string)
    ensures
      MapRedisError(text) ==
      if || (exists i :: 0 <= i <= |text| && "NOAUTH" <= text[i..])
         || (exists i :: 0 <= i <= |text| && "WRONGPASS" <= text[i..])
      then Authentication else Operation
  {
  }

  /** The text the source holds before a value edit; what the program reads into `expected`. */
  function ReadText(store: Store, op: RowWrite): Option<string> {
    if op.EditsValue() && Encode(op.key) in store && store[Encode(op.key)].Str?
    then EditableText(store[Encode(op.key)].bytes) else None
  }

  /** The bytes at the source are those of the expected text exactly when reading them gives that text. */
  lemma ReadTextIs(store: Store, op: RowWrite, expected: string)
    requires op.EditsValue() && |expected| <= MAX_CELL
    ensures ReadText(store, op) == Some(expected) <==>
            Encode(op.key) in store && store[Encode(op.key)] == Str(Encode(expected))
  {
    var s := Encode(op.key);
    if s in store && store[s].Str? {
      DecodeIffEncode(store[s].bytes, expected);
    }
  }

  ghost predicate CommitIsMeant(
    store: Store, op: RowWrite, expected: Option<string>, after: Effect, outcome: Outcome, statement: string
  ) {
    if outcome.Ok? then
      && Accepted(store, op)
      && after.store == Applied(store, op)
      && outcome.value == Written(RowsAffected(store, op), statement)
      && (op.EditsValue() ==> ReadText(store, op) == expected)
    else
      && after.store == store
      && (Accepted(store, op) ==> op.EditsValue() && ReadText(store, op) != expected)
  }

  /**
   The commit command alone decides the write: it succeeds on a store where the
   write is allowed and has its meaning there, or it fails and changes nothing.
   It fails on a store where the write is allowed only for a value edit whose
   source no longer holds the text that was read.
   */
  lemma CommitMeaning(store: Store, op: RowWrite, expected: Option<string>, statement: string)
    requires op.EditsValue() ==> expected.Some? && |expected.value| <= MAX_CELL
    ensures
      var after := Execute(store, CommitCommand(op, expected));
      CommitIsMeant(store, op, expected, after, CommitVerdict(op, after.reply, statement), statement)
  {
    if op.Update? {
      UpdateMeaning(store, op, expected, statement);
    }
  }

  lemma UpdateMeaning(store: Store, op: RowWrite, expected: Option<string>, statement: string)
    requires op.Update?
    requires op.EditsValue() ==> expected.Some? && |expected.value| <= MAX_CELL
    ensures
      var after := Execute(store, CommitCommand(op, expected));
      CommitIsMeant(store, op, expected, after, CommitVerdict(op, after.reply, statement), statement)
  {
    var dst, want := op.Destination(), op.newValue.Some?;
    var text := if expected.Some? then expected.value else "";
    var newText := if want then op.newValue.value else "";
    EncodeInjective(op.key, dst);
    ScriptIsCompareAndSet(store, op.key, dst, want, text, newText);
    if want {
      ReadTextIs(store, op, text);
    }
  }

  /** The declared effect, count and statement where the write is allowed; an error and no effect elsewhere. */
  ghost predicate SoloIsMeant(script: string, store: Store, op: RowWrite) {
    var (after, outcome) := Solo(script, store, op);
    if Accepted(store, op) then
      && after == Applied(store, op)
      && outcome == Ok(Written(RowsAffected(store, op), StatementOf(script, CommitCommand(op, ReadText(store, op)))))
    else after == store && outcome.Err?
  }

  lemma PlainSolo(script: string, store: Store, op: RowWrite)
    requires !op.EditsValue()
    ensures SoloIsMeant(script, store, op)
  {
    hide Encode, StatementOf;
    EncodeInjective(op.key, op.Destination());
    CommitMeaning(store, op, None, StatementOf(script, CommitCommand(op, None)));
  }

  /** Every read of a value edit passes or ends the write, and leaves the store. */
  lemma EditSolo(script: string, store: Store, op: RowWrite)
    requires op.EditsValue()
    ensures
      var expected := ReadText(store, op);
      if expected.None? then Solo(script, store, op).0 == store && Solo(script, store, op).1.Err?
      else Solo(script, store, op) == SoloFrom(script, store, op, LaterPhase(op), expected)
  {
    hide Encode, StatementOf, Decode;
    var expected := ReadText(store, op);
    assert TypeName(store, Encode(op.key)) != "string" ==> Solo(script, store, op) == (store, Err(Operation));
    if TypeName(store, Encode(op.key)) == "string" {
      assert Solo(script, store, op) == SoloFrom(script, store, op, ReadValue, None);
    }
  }

  /** Alone, the program does exactly what the write is declared to mean, and reports its commit command. */
  lemma SoloMeaning(script: string, store: Store, op: RowWrite)
    ensures SoloIsMeant(script, store, op)
  {
    hide Encode, StatementOf;
    var expected := ReadText(store, op);
    if !op.EditsValue() {
      PlainSolo(script, store, op);
    } else {
      EditSolo(script, store, op);
      if expected.Some? {
        EncodeInjective(op.key, op.Destination());
        CommitMeaning(store, op, expected, StatementOf(script, CommitCommand(op, expected)));
      }
    }
  }
}
