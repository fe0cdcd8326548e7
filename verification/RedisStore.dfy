/**
 The part of Redis the row writes use: a map from key bytes to contents, each
 command one atomic step on it. A command exists in two forms, the value the
 service builds and the token list that goes over the wire and into the
 reported statement. `script` stands for the text of the update script; every
 result here holds for whatever text that is.
 */
module RedisStore {
  import opened Statements
  import opened Utf8
  import opened Wrappers

  datatype Kind = Hash | List | Set | SortedSet | Stream | Module

  datatype Content = Str(bytes: Bytes) | Other(kind: Kind, payload: Bytes)

  type Store = map<Bytes, Content>

  datatype Reply =
    | Status(text: string)
    | Bulk(bytes: Bytes)
    | Nil
    | Int(n: int)
    | Fail(text: string)

  datatype Effect = Effect(store: Store, reply: Reply)

  function TypeName(store: Store, key: Bytes): string {
    if key !in store then "none"
    else match store[key]
      case Str(_) => "string"
      case Other(Hash, _) => "hash"
      case Other(List, _) => "list"
      case Other(Set, _) => "set"
      case Other(SortedSet, _) => "zset"
      case Other(Stream, _) => "stream"
      case Other(Module, _) => "module"
  }

  /** TYPE tells the kinds of contents apart, under the names Redis gives them. */
  lemma TypeNamesAre(store: Store, key: Bytes)
    ensures TypeName(store, key) == "none" <==> key !in store
    ensures key in store ==>
              && (TypeName(store, key) == "string" <==> store[key].Str?)
              && (TypeName(store, key) == "hash" <==> store[key].Other? && store[key].kind == Hash)
              && (TypeName(store, key) == "list" <==> store[key].Other? && store[key].kind == List)
              && (TypeName(store, key) == "set" <==> store[key].Other? && store[key].kind == Set)
              && (TypeName(store, key) == "zset" <==> store[key].Other? && store[key].kind == SortedSet)
              && (TypeName(store, key) == "stream" <==> store[key].Other? && store[key].kind == Stream)
  {
  }

  function GetReply(store: Store, key: Bytes): Reply {
    if key !in store then Nil
    else match store[key]
      case Str(bytes) => Bulk(bytes)
      case Other(_, _) => Fail("WRONGTYPE " + "Operation against a key " + "holding the wrong " + "kind of value")
  }

  function Rename(store: Store, src: Bytes, dst: Bytes): Store
    requires src in store
  {
    (store - {src})[dst := store[src]]
  }

  /** The Lua script: every check again, then RENAME and SET, in one atomic step. */
  function UpdateScript(
    store: Store, src: string, dst: string, want: bool, expected: string, newValue: string
  ): Effect {
    var s, d := Encode(src), Encode(dst);
    if s !in store then Effect(store, Fail("key not found: " + src))
    else if want && TypeName(store, s) != "string" then
      Effect(store, Fail("cannot edit value: " + src + " is not a string (type " + TypeName(store, s) + ")"))
    else if want && GetReply(store, s) != Bulk(Encode(expected)) then
      Effect(store, Fail("cannot edit value: " + src + " changed concurrently"))
    else if d != s && d in store then
      Effect(store, Fail("destination key already exists: " + dst))
    else
      var renamed := if d != s then Rename(store, s, d) else store;
      Effect(if want then renamed[d := Str(Encode(newValue))] else renamed, Int(1))
  }

  datatype Command =
    | Type(key: string)
    | Get(key: string)
    | Exists(key: string)
    | Del(key: string)
    | SetNx(key: string, value: string)
    | Eval(src: string, dst: string, want: bool, expected: string, newValue: string)

  function Execute(store: Store, command: Command): Effect {
    match command
    case Type(key) => Effect(store, Status(TypeName(store, Encode(key))))
    case Get(key) => Effect(store, GetReply(store, Encode(key)))
    case Exists(key) => Effect(store, Int(if Encode(key) in store then 1 else 0))
    case Del(key) => Effect(store - {Encode(key)}, Int(if Encode(key) in store then 1 else 0))
    case SetNx(key, value) =>
      if Encode(key) in store then Effect(store, Nil)
      else Effect(store[Encode(key) := Str(Encode(value))], Status("OK"))
    case Eval(src, dst, want, expected, newValue) =>
      UpdateScript(store, src, dst, want, expected, newValue)
  }

  // --- the wire form --------------------------------------------------------

  function Tokens(script: string, command: Command): seq<string> {
    match command
    case Type(key) => ["TYPE", key]
    case Get(key) => ["GET", key]
    case Exists(key) => ["EXISTS", key]
    case Del(key) => ["DEL", key]
    case SetNx(key, value) => ["SET", key, value, "NX"]
    case Eval(src, dst, want, expected, newValue) =>
      ["EVAL", script, "1", src, dst, if want then "1" else "0", expected, newValue]
  }

  /** The command Redis carries out for a token list; None for one outside this model. */
  function Interpret(script: string, tokens: seq<string>): Option<Command> {
    if |tokens| < 2 then None
    else if SameIgnoringCase(tokens[0], "TYPE") && |tokens| == 2 then Some(Type(tokens[1]))
    else if SameIgnoringCase(tokens[0], "GET") && |tokens| == 2 then Some(Get(tokens[1]))
    else if SameIgnoringCase(tokens[0], "EXISTS") && |tokens| == 2 then Some(Exists(tokens[1]))
    else if SameIgnoringCase(tokens[0], "DEL") && |tokens| == 2 then Some(Del(tokens[1]))
    else if SameIgnoringCase(tokens[0], "SET") && |tokens| == 4 && SameIgnoringCase(tokens[3], "NX") then
      Some(SetNx(tokens[1], tokens[2]))
    else if SameIgnoringCase(tokens[0], "EVAL") && |tokens| == 8 && tokens[1] == script && tokens[2] == "1" then
      Some(Eval(tokens[3], tokens[4], tokens[5] == "1", tokens[6], tokens[7]))
    else None
  }

  lemma InterpretTokens(script: string, command: Command)
    ensures Interpret(script, Tokens(script, command)) == Some(command)
  {
    var verb := Tokens(script, command)[0];
    assert SameIgnoringCase(verb, verb);
    assert UpperChar("GET"[0]) != UpperChar("DEL"[0]);
    assert UpperChar("EVAL"[0]) != UpperChar("TYPE"[0]);
  }

  /** The script as Redis runs it: its keys and arguments by place, as its first five lines read them. */
  function RunScript(store: Store, keys: seq<string>, argv: seq<string>): Effect
    requires |keys| == 1 && |argv| == 4
  {
    var src := keys[0];
    var dst, wantValue, expected, newValue := argv[0], argv[1], argv[2], argv[3];
    UpdateScript(store, src, dst, wantValue == "1", expected, newValue)
  }

  /**
   The EVAL that is sent: script, number of keys, then as many keys and the rest
   arguments; run with these it is the update meant.
   */
  lemma EvalPassesArguments(
    script: string, store: Store, src: string, dst: string, want: bool, expected: string, newValue: string
  )
    ensures
      var command := Eval(src, dst, want, expected, newValue);
      var tokens := Tokens(script, command);
      && |tokens| == 8 && tokens[0] == "EVAL" && tokens[1] == script && tokens[2] == "1"
      && RunScript(store, tokens[3..4], tokens[4..]) == Execute(store, command)
  {
    hide UpdateScript;
    var tokens := Tokens(script, Eval(src, dst, want, expected, newValue));
    assert tokens[4..][1] == if want then "1" else "0";
  }

  /** The other commands, as Redis documents them: the token lists and their effect on the keys. */
  lemma CommandsAre(script: string, store: Store, key: string, value: string)
    ensures Tokens(script, Type(key)) == ["TYPE", key] && Tokens(script, Get(key)) == ["GET", key]
    ensures Tokens(script, Exists(key)) == ["EXISTS", key] && Tokens(script, Del(key)) == ["DEL", key]
    ensures Tokens(script, SetNx(key, value)) == ["SET", key, value, "NX"]
    ensures
      var k, after := Encode(key), Execute(store, Del(key));
      && k !in after.store && after.reply == Int(if k in store then 1 else 0)
      && forall other | other != k :: (other in after.store <==> other in store)
                                      && (other in store ==> after.store[other] == store[other])
    ensures
      var k, after := Encode(key), Execute(store, SetNx(key, value));
      if k in store then after == Effect(store, Nil)
      else after.reply == Status("OK") && after.store == store[k := Str(Encode(value))]
    ensures forall command | command == Type(key) || command == Get(key) || command == Exists(key) ::
              Execute(store, command).store == store
  {
    hide Encode;
  }

  predicate IsRead(command: Command) {
    command.Type? || command.Get? || command.Exists?
  }

  // --- what the mutating commands do ------------------------------------------

  /** A script that succeeds found what it was told to expect; one that fails changes nothing. */
  lemma ScriptIsCompareAndSet(
    store: Store, src: string, dst: string, want: bool, expected: string, newValue: string
  )
    ensures
      var after := UpdateScript(store, src, dst, want, expected, newValue);
      var s, d := Encode(src), Encode(dst);
      if after.reply == Int(1) then
        && s in store && (src == dst || d !in store)
        && (want ==> store[s] == Str(Encode(expected)))
        && after.store == (store - {s})[d := if want then Str(Encode(newValue)) else store[s]]
      else after.store == store && after.reply.Fail?
  {
    EncodeInjective(src, dst);
  }

  predicate Touches(command: Command, key: Bytes) {
    match command
    case Del(k) => key == Encode(k)
    case SetNx(k, _) => key == Encode(k)
    case Eval(src, dst, _, _, _) => key == Encode(src) || key == Encode(dst)
    case _ => false
  }

  /** No command changes a key other than its own; in particular reads change none. */
  lemma UntouchedKeys(store: Store, command: Command, key: Bytes)
    requires !Touches(command, key)
    ensures
      var after := Execute(store, command).store;
      && (key in after <==> key in store)
      && (key in store ==> after[key] == store[key])
  {
  }

  /** How many keys a command adds, as its reply tells. */
  function KeysAdded(command: Command, reply: Reply): int {
    match command
    case Del(_) => if reply.Int? then -reply.n else 0
    case SetNx(_, _) => if reply.Nil? then 0 else 1
    case _ => 0
  }

  lemma KeyCount(store: Store, command: Command)
    ensures
      var after := Execute(store, command);
      |after.store| == |store| + KeysAdded(command, after.reply)
  {
    var after := Execute(store, command);
    match command
    case Del(k) => RemoveCount(store, Encode(k));
    case SetNx(k, v) => AddCount(store, Encode(k), Str(Encode(v)));
    case Eval(src, dst, want, expected, newValue) =>
      var s, d := Encode(src), Encode(dst);
      ScriptIsCompareAndSet(store, src, dst, want, expected, newValue);
      if after.reply == Int(1) {
        RemoveCount(store, s);
        AddCount(store - {s}, d, after.store[d]);
        assert after.store == (store - {s})[d := after.store[d]];
      }
    case _ =>
  }

  lemma RemoveCount(store: Store, key: Bytes)
    ensures |store - {key}| == |store| - (if key in store then 1 else 0)
  {
    assert (store - {key}).Keys == store.Keys - {key};
    assert |store.Keys| == |store| && |(store - {key}).Keys| == |store - {key}|;
  }

  lemma AddCount(store: Store, key: Bytes, content: Content)
    ensures |store[key := content]| == |store| + (if key in store then 0 else 1)
  {
    assert store[key := content].Keys == store.Keys + {key};
    assert |store.Keys| == |store| && |store[key := content].Keys| == |store[key := content]|;
  }
}
