/**
 The two session services' row writes as they are written, running alone: the
 Redis service over a connection, the in-memory service over a map. Both are
 tied to the specification of module RowWrites and to each other.
 */
module Services {
  import opened Errors
  import opened RedisStore
  import opened RowRequests
  import opened RowWrites
  import opened Utf8
  import opened Wrappers

  class RedisService {
    const script: string
    var store: Store
    var closed: bool
    var connected: bool

    constructor (script: string, store: Store)
      ensures this.script == script && this.store == store && !closed && connected
    {
      this.script, this.store, closed, connected := script, store, false, true;
    }

    predicate Live()
      reads this
    {
      !closed && connected
    }

    method Query(command: Command) returns (r: Result<Reply, ErrorKind>)
      modifies this`store
      ensures !Live() ==> r == Err(Connection) && store == old(store)
      ensures Live() ==>
        var after := Execute(old(store), command);
        store == after.store && r == if after.reply.Fail? then Err(MapRedisError(after.reply.text)) else Ok(after.reply)
    {
      if closed || !connected {
        return Err(Connection);
      }
      var after := Execute(store, command);
      store := after.store;
      return if after.reply.Fail? then Err(MapRedisError(after.reply.text)) else Ok(after.reply);
    }

    method DeleteRow(key: string) returns (r: Outcome)
      modifies this`store
      ensures !Live() ==> r == Err(Connection) && store == old(store)
      ensures Live() ==> (store, r) == Solo(script, old(store), Delete(key))
    {
      var reply := Query(Del(key));
      if reply.Err? {
        return Err(reply.error);
      }
      match reply.value
      case Int(count) =>
        return Ok(Written(if count > 0 then count else 0, StatementOf(script, Del(key))));
      case _ => return Err(Operation);
    }

    method InsertRow(key: string, value: string) returns (r: Outcome)
      modifies this`store
      ensures !Live() ==> r == Err(Connection) && store == old(store)
      ensures Live() ==> (store, r) == Solo(script, old(store), Insert(key, value))
    {
      var reply := Query(SetNx(key, value));
      if reply.Err? {
        return Err(reply.error);
      }
      if reply.value == Nil {
        return Err(Operation);
      }
      return Ok(Written(1, StatementOf(script, SetNx(key, value))));
    }

    method UpdateRow(key: string, renameTo: Option<string>, value: Option<string>) returns (r: Outcome)
      modifies this`store
      ensures !Live() ==> r == Err(Connection) && store == old(store)
      ensures Live() ==> (store, r) == Solo(script, old(store), Update(key, renameTo, value))
    {
      hide Encode, StatementOf, Decode;
      ghost var op := Update(key, renameTo, value);
      var destination := if renameTo.Some? then renameTo.value else key;
      var expected: Option<string> := None;
      if value.Some? {
        var kind := Query(Type(key));
        if kind.Err? {
          return Err(kind.error);
        }
        if kind.value != Status("string") {
          return Err(Operation);
        }
        assert Live() ==> Solo(script, old(store), op) == SoloFrom(script, store, op, ReadValue, None);
        var got := Query(Get(key));
        if got.Err? {
          return Err(got.error);
        }
        if !got.value.Bulk? {
          return Err(Operation);
        }
        var current := Decode(got.value.bytes);
        if current.None? || |current.value| > MAX_CELL {
          return Err(Operation);
        }
        expected := current;
      }
      assert Live() ==> Solo(script, old(store), op) == SoloFrom(script, store, op, LaterPhase(op), expected);
      if destination != key {
        var exists_ := Query(Exists(destination));
        if exists_.Err? {
          return Err(exists_.error);
        }
        if !exists_.value.Int? || exists_.value.n > 0 {
          return Err(Operation);
        }
      }
      assert Live() ==> Solo(script, old(store), op) == SoloFrom(script, store, op, Commit, expected);
      var command := Eval(key, destination, value.Some?, OrEmpty(expected), OrEmpty(value));
      var statement := StatementOf(script, command);
      var affected := Query(command);
      if affected.Err? {
        return Err(affected.error);
      }
      if !affected.value.Int? {
        return Err(Operation);
      }
      return Ok(Written(if affected.value.n > 0 then affected.value.n else 0, statement));
    }

    /** A request is refused before any Redis command, or carried out as the write it parses to. */
    method WriteRow(request: Request) returns (r: Outcome)
      modifies this`store
      ensures RedisWrite(request).Err? ==> r == Err(RedisWrite(request).error) && store == old(store)
      ensures RedisWrite(request).Ok? && !Live() ==> r == Err(Connection) && store == old(store)
      ensures RedisWrite(request).Ok? && Live() ==> (store, r) == Solo(script, old(store), RedisWrite(request).value)
    {
      var parsed := ParseRowWrite(request);
      if parsed.Err? {
        return Err(parsed.error);
      }
      match parsed.value
      case Delete(key) => r := DeleteRow(key);
      case Update(key, renameTo, value) => r := UpdateRow(key, renameTo, value);
      case Insert(key, value) => r := InsertRow(key, value);
    }

    /** `idle`: the connection's lock is free. A busy connection stays in place, behind the closed flag. */
    method Close(idle: bool)
      modifies this`closed, this`connected
      ensures closed && connected == (old(connected) && !idle)
      ensures !Live()
    {
      closed := true;
      if idle {
        connected := false;
      }
    }
  }

  // --- the in-memory service ----------------------------------------------------

  type MemoryStore = map<string, string>

  predicate MemoryAccepts(store: MemoryStore, op: RowWrite) {
    match op
    case Delete(_) => true
    case Insert(key, _) => key !in store
    case Update(key, _, _) => key in store && (op.Destination() == key || op.Destination() !in store)
  }

  function MemoryApplied(store: MemoryStore, op: RowWrite): MemoryStore
    requires MemoryAccepts(store, op)
  {
    match op
    case Delete(key) => store - {key}
    case Insert(key, value) => store[key := value]
    case Update(key, _, value) => (store - {key})[op.Destination() := if value.Some? then value.value else store[key]]
  }

  function MemoryRows(store: MemoryStore, op: RowWrite): nat {
    if op.Delete? && op.key !in store then 0 else 1
  }

  class MemoryService {
    var store: MemoryStore

    constructor ()
      ensures store == map[]
    {
      store := map[];
    }

    method WriteRow(request: Request) returns (r: Result<nat, ErrorKind>)
      modifies this
      ensures MemoryWrite(request).Err? ==> r == Err(MemoryWrite(request).error) && store == old(store)
      ensures MemoryWrite(request).Ok? ==>
        var op := MemoryWrite(request).value;
        if MemoryAccepts(old(store), op)
        then store == MemoryApplied(old(store), op) && r == Ok(MemoryRows(old(store), op))
        else store == old(store) && r == Err(Operation)
    {
      if request.table != "kv" {
        return Err(Unsupported);
      }
      if request.operation == "insert" {
        if request.values.None? {
          return Err(Validation);
        }
        var fields := ParseMemoryInsert(request.values.value);
        if fields.Err? {
          return Err(fields.error);
        }
        var (key, value) := fields.value;
        if key in store {
          return Err(Operation);
        }
        store := store[key := value];
        return Ok(1);
      } else if request.operation == "update" {
        var identity := ParseIdentity(request.key);
        if identity.Err? || request.values.None? {
          return Err(Validation);
        }
        var fields := ParseUpdateValues(request.values.value);
        if fields.Err? {
          return Err(fields.error);
        }
        var key := identity.value;
        var (renameTo, value) := fields.value;
        if key !in store {
          return Err(Operation);
        }
        if renameTo.Some? && renameTo.value != key && renameTo.value in store {
          return Err(Operation);
        }
        var destination := if renameTo.Some? then renameTo.value else key;
        var oldValue := store[key];
        store := store - {key};
        store := store[destination := if value.Some? then value.value else oldValue];
        return Ok(1);
      } else if request.operation == "delete" {
        var identity := ParseIdentity(request.key);
        if identity.Err? {
          return Err(identity.error);
        }
        var affected := if identity.value in store then 1 else 0;
        store := store - {identity.value};
        return Ok(affected);
      }
      return Err(Validation);
    }
  }

  // --- refinement ---------------------------------------------------------------

  /** A Redis store holding exactly the strings of a memory store. */
  ghost predicate Represents(store: Store, memory: MemoryStore) {
    && (forall key: string {:trigger Encode(key)} :: Encode(key) in store <==> key in memory)
    && (forall key: string {:trigger Encode(key)} | key in memory :: store[Encode(key)] == Str(Encode(memory[key])))
    && (forall bytes | bytes in store :: Decode(bytes).Some? && Decode(bytes).value in memory)
  }

  /** The one difference between the services: Redis will not edit a value longer than a display cell. */
  predicate EditsLongValue(memory: MemoryStore, op: RowWrite) {
    op.EditsValue() && op.key in memory && |memory[op.key]| > MAX_CELL
  }

  lemma AcceptedAlike(store: Store, memory: MemoryStore, op: RowWrite)
    requires Represents(store, memory)
    ensures Accepted(store, op) <==> MemoryAccepts(memory, op) && !EditsLongValue(memory, op)
    ensures RowsAffected(store, op) == MemoryRows(memory, op)
  {
    EncodeInjective(op.key, op.Destination());
    if op.EditsValue() && op.key in memory {
      DecodeIffEncode(Encode(memory[op.key]), memory[op.key]);
    }
  }

  lemma RepresentsPut(store: Store, memory: MemoryStore, key: string, value: string)
    requires Represents(store, memory)
    ensures Represents(store[Encode(key) := Str(Encode(value))], memory[key := value])
  {
    hide Encode;
    forall k: string ensures Encode(k) == Encode(key) <==> k == key {
      EncodeInjective(k, key);
    }
    DecodeIffEncode(Encode(key), key);
  }

  lemma RepresentsRemove(store: Store, memory: MemoryStore, key: string)
    requires Represents(store, memory)
    ensures Represents(store - {Encode(key)}, memory - {key})
  {
    forall k: string ensures Encode(k) == Encode(key) <==> k == key {
      EncodeInjective(k, key);
    }
    forall bytes | bytes in store - {Encode(key)} ensures Decode(bytes).value != key {
      DecodeIffEncode(bytes, key);
    }
  }

  lemma AppliedAlike(store: Store, memory: MemoryStore, op: RowWrite)
    requires Represents(store, memory) && Accepted(store, op) && MemoryAccepts(memory, op)
    ensures Represents(Applied(store, op), MemoryApplied(memory, op))
  {
    match op
    case Delete(key) => RepresentsRemove(store, memory, key);
    case Insert(key, value) => RepresentsPut(store, memory, key, value);
    case Update(key, _, value) =>
      RepresentsRemove(store, memory, key);
      RepresentsPut(
        store - {Encode(key)}, memory - {key}, op.Destination(),
        if value.Some? then value.value else memory[key]);
  }

  /**
   The Redis service refines the in-memory one: on corresponding stores, the same
   write is accepted by both or by neither, with corresponding results and the
   same count, except the edit of a value too long to display.
   */
  lemma RedisRefinesMemory(script: string, store: Store, memory: MemoryStore, op: RowWrite)
    requires Represents(store, memory)
    ensures
      var (after, outcome) := Solo(script, store, op);
      if MemoryAccepts(memory, op) && !EditsLongValue(memory, op) then
        && outcome.Ok? && outcome.value.rowsAffected == MemoryRows(memory, op)
        && Represents(after, MemoryApplied(memory, op))
      else outcome.Err? && after == store
  {
    AcceptedAlike(store, memory, op);
    SoloMeaning(script, store, op);
    if MemoryAccepts(memory, op) && !EditsLongValue(memory, op) {
      AppliedAlike(store, memory, op);
    }
  }

  function MemoryRun(memory: MemoryStore, ops: seq<RowWrite>): MemoryStore
    decreases |ops|
  {
    if ops == [] then memory
    else MemoryRun(if MemoryAccepts(memory, ops[0]) then MemoryApplied(memory, ops[0]) else memory, ops[1..])
  }

  function RedisRun(script: string, store: Store, ops: seq<RowWrite>): Store
    decreases |ops|
  {
    if ops == [] then store else RedisRun(script, Solo(script, store, ops[0]).0, ops[1..])
  }

  predicate AllShort(memory: MemoryStore) {
    forall key | key in memory :: |memory[key]| <= MAX_CELL
  }

  predicate WritesShort(op: RowWrite) {
    match op
    case Insert(_, value) => |value| <= MAX_CELL
    case Update(_, _, value) => value.Some? ==> |value.value| <= MAX_CELL
    case Delete(_) => true
  }

  lemma StaysShort(memory: MemoryStore, op: RowWrite)
    requires AllShort(memory) && WritesShort(op)
    ensures MemoryAccepts(memory, op) ==> AllShort(MemoryApplied(memory, op))
    ensures !EditsLongValue(memory, op)
  {
  }

  /** The row counts of a run of writes in order, None for a refused one. */
  function MemoryAnswers(memory: MemoryStore, ops: seq<RowWrite>): seq<Option<nat>>
    decreases |ops|
  {
    if ops == [] then []
    else if MemoryAccepts(memory, ops[0]) then
      [Some(MemoryRows(memory, ops[0]))] + MemoryAnswers(MemoryApplied(memory, ops[0]), ops[1..])
    else [None] + MemoryAnswers(memory, ops[1..])
  }

  function RedisAnswers(script: string, store: Store, ops: seq<RowWrite>): seq<Option<nat>>
    decreases |ops|
  {
    if ops == [] then []
    else
      var (after, outcome) := Solo(script, store, ops[0]);
      [if outcome.Ok? then Some(outcome.value.rowsAffected) else None] + RedisAnswers(script, after, ops[1..])
  }

  /**
   Over whole runs of short writes from a short store, the two services stay in
   step: write by write the same ones are accepted, with the same counts, and the
   stores they end in correspond.
   */
  lemma {:induction false} RunsStayInStep(script: string, store: Store, memory: MemoryStore, ops: seq<RowWrite>)
    requires Represents(store, memory) && AllShort(memory)
    requires forall op | op in ops :: WritesShort(op)
    ensures Represents(RedisRun(script, store, ops), MemoryRun(memory, ops))
    ensures RedisAnswers(script, store, ops) == MemoryAnswers(memory, ops)
    decreases |ops|
  {
    hide Solo, Represents, AllShort, MemoryAccepts, MemoryApplied, MemoryRows;
    if ops != [] {
      var op := ops[0];
      assert op in ops;
      var next := if MemoryAccepts(memory, op) then MemoryApplied(memory, op) else memory;
      RedisRefinesMemory(script, store, memory, op);
      StaysShort(memory, op);
      RunsStayInStep(script, Solo(script, store, op).0, next, ops[1..]);
    }
  }
}
