/**
 The kind of an error reply is told from its text, and the script's texts name
 keys. What this makes of the outcomes of row writes, alone and among others.
 */
module ErrorKinds {
  import opened CutOff
  import opened Errors
  import opened Interleaving
  import opened InterleavingLaws
  import opened Linearization
  import opened RedisStore
  import opened RowWrites
  import opened Schedules
  import opened Utf8
  import opened Wrappers

  // --- words in texts --------------------------------------------------------------------

  /** A word is found behind a prefix that lacks its first letter exactly when it is found without the prefix. */
  lemma ContainsAfter(prefix: string, text: string, word: string)
    requires word != "" && word[0] !in prefix
    ensures Contains(prefix + text, word) <==> Contains(text, word)
  {
    var all := prefix + text;
    if i :| 0 <= i <= |all| && word <= all[i..] {
      assert all[i] == word[0];
      assert all[i..] == text[i - |prefix|..];
    }
    if i :| 0 <= i <= |text| && word <= text[i..] {
      assert all[|prefix| + i..] == text[i..];
    }
  }

  /** Likewise before a suffix that lacks its last letter. */
  lemma ContainsBefore(text: string, suffix: string, word: string)
    requires word != "" && word[|word| - 1] !in suffix
    ensures Contains(text + suffix, word) <==> Contains(text, word)
  {
    var all := text + suffix;
    if i :| 0 <= i <= |all| && word <= all[i..] {
      var end := i + |word|;
      assert all[end - 1] == all[i..][|word| - 1] == word[|word| - 1];
      assert text[i..][..|word|] == all[i..][..|word|];
    }
    if i :| 0 <= i <= |text| && word <= text[i..] {
      assert all[i..] == text[i..] + suffix;
    }
  }

  lemma ContainsLetters(text: string, word: string, k: nat)
    requires k < |word| && Contains(text, word)
    ensures word[k] in text
  {
    var i :| 0 <= i <= |text| && word <= text[i..];
    assert word[k] == text[i..][k] == text[i + k];
  }

  /** A key between lower-case words: the words are found exactly when the key holds them. */
  lemma NamedKey(prefix: string, key: string, suffix: string)
    requires 'N' !in prefix && 'W' !in prefix && 'H' !in suffix && 'S' !in suffix
    ensures NamesAuthentication(prefix + key + suffix) <==> NamesAuthentication(key)
  {
    ContainsBefore(prefix + key, suffix, "NOAUTH");
    ContainsBefore(prefix + key, suffix, "WRONGPASS");
    ContainsAfter(prefix, key, "NOAUTH");
    ContainsAfter(prefix, key, "WRONGPASS");
  }

  lemma WrongTypeKind()
    ensures !NamesAuthentication("WRONGTYPE " + "Operation against a key " + "holding the wrong " + "kind of value")
  {
    var text := "WRONGTYPE " + "Operation against a key " + "holding the wrong " + "kind of value";
    assert 'A' !in text && 'S' !in text;
    if Contains(text, "NOAUTH") {
      ContainsLetters(text, "NOAUTH", 2);
    }
    if Contains(text, "WRONGPASS") {
      ContainsLetters(text, "WRONGPASS", 7);
    }
  }

  // --- the script's refusals --------------------------------------------------------------

  /** The key the script's error names when it refuses an update: the source, or a destination that is taken. */
  function RefusedKey(store: Store, op: RowWrite, expected: Option<string>): Option<string>
    requires op.Update?
  {
    var s, d := Encode(op.key), Encode(op.Destination());
    if s !in store then Some(op.key)
    else if op.EditsValue() && (expected.None? || store[s] != Str(Encode(expected.value))) then Some(op.key)
    else if d != s && d in store then Some(op.Destination())
    else None
  }

  lemma TypeNameLetters(store: Store, key: Bytes)
    ensures 'H' !in TypeName(store, key) && 'S' !in TypeName(store, key)
  {
  }

  lemma TypeNameSuffix(store: Store, key: Bytes)
    ensures 'H' !in " is not a string (type " + TypeName(store, key) + ")"
    ensures 'S' !in " is not a string (type " + TypeName(store, key) + ")"
  {
    TypeNameLetters(store, key);
    hide TypeName;
  }

  lemma NotFoundText(key: string)
    ensures NamesAuthentication("key not found: " + key) <==> NamesAuthentication(key)
  {
    NamedKey("key not found: ", key, "");
    hide NamesAuthentication;
    assert "key not found: " + key + "" == "key not found: " + key;
  }

  lemma NotStringText(store: Store, key: string, k: Bytes)
    ensures NamesAuthentication("cannot edit value: " + key + " is not a string (type " + TypeName(store, k) + ")")
            <==> NamesAuthentication(key)
  {
    TypeNameSuffix(store, k);
    var prefix, suffix := "cannot edit value: " + key, " is not a string (type " + TypeName(store, k) + ")";
    NamedKey("cannot edit value: ", key, suffix);
    hide NamesAuthentication, TypeName;
    assert prefix + suffix == prefix + " is not a string (type " + TypeName(store, k) + ")";
  }

  lemma ChangedText(key: string)
    ensures NamesAuthentication("cannot edit value: " + key + " changed concurrently") <==> NamesAuthentication(key)
  {
    NamedKey("cannot edit value: ", key, " changed concurrently");
  }

  lemma TakenText(key: string)
    ensures NamesAuthentication("destination key already exists: " + key) <==> NamesAuthentication(key)
  {
    NamedKey("destination key already exists: ", key, "");
    hide NamesAuthentication;
    assert "destination key already exists: " + key + "" == "destination key already exists: " + key;
  }

  /** The script refuses exactly where there is such a key, and its error text names that key. */
  lemma RefusalNames(store: Store, src: string, dst: string, want: bool, expected: string, newValue: string)
    ensures
      var op := Update(src, Some(dst), if want then Some(newValue) else None);
      var key := RefusedKey(store, op, Some(expected));
      var reply := UpdateScript(store, src, dst, want, expected, newValue).reply;
      if key.None? then reply == Int(1)
      else reply.Fail? && (NamesAuthentication(reply.text) <==> NamesAuthentication(key.value))
  {
    hide Encode, NamesAuthentication;
    NotFoundText(src);
    NotStringText(store, src, Encode(src));
    ChangedText(src);
    TakenText(dst);
  }

  /** The refusal looks at what the update does, not at how it is written. */
  lemma SameRefusal(store: Store, op: RowWrite, expected: Option<string>)
    requires op.Update? && (op.EditsValue() ==> expected.Some?)
    ensures
      var newValue := if op.EditsValue() then Some(op.newValue.GetOr("")) else None;
      var plain := Update(op.key, Some(op.Destination()), newValue);
      RefusedKey(store, plain, Some(expected.GetOr(""))) == RefusedKey(store, op, expected)
  {
    hide Encode;
  }

  /** So a commit is answered with an authentication failure exactly when it refuses a key of such a name. */
  lemma CommitKind(store: Store, op: RowWrite, expected: Option<string>, statement: string)
    requires op.EditsValue() ==> expected.Some?
    ensures
      var reply := Execute(store, CommitCommand(op, expected)).reply;
      CommitVerdict(op, reply, statement) == Err(Authentication) <==>
      op.Update? && RefusedKey(store, op, expected).Some? && NamesAuthentication(RefusedKey(store, op, expected).value)
  {
    hide Encode, NamesAuthentication, UpdateScript, RefusedKey;
    if op.Update? {
      var text, newText := expected.GetOr(""), op.newValue.GetOr("");
      RefusalNames(store, op.key, op.Destination(), op.EditsValue(), text, newText);
      SameRefusal(store, op, expected);
    }
  }

  /** No read is ever answered with one. */
  lemma ReadKind(script: string, store: Store, h: Handler, outcome: Outcome)
    requires !h.phase.Commit? && Decides(script, h, Execute(store, h.Command()).reply, outcome)
    ensures outcome == Err(Operation)
  {
    hide Encode, NamesAuthentication, EditableText;
    WrongTypeKind();
  }

  // --- runs ---------------------------------------------------------------------------------

  /** Event `j` is the handler's commit, refused for a key whose name holds one of the words. */
  ghost predicate RefusedNaming(init: Store, s: System, i: nat, j: nat)
    requires i < |s.handlers|
  {
    && CommitsAt(s.log, i, j) && s.handlers[i].op.Update?
    && var key := RefusedKey(Before(init, s.log, j), s.handlers[i].op, s.handlers[i].expected);
    && key.Some? && NamesAuthentication(key.value)
  }

  /**
   In every interleaving, a write ended by a reply is reported as an
   authentication failure if and only if it is an update whose commit ran on a
   store where the script refuses it, and the key refused, its source or a taken
   destination, holds NOAUTH or WRONGPASS in its name.
   */
  lemma AuthenticationKind(script: string, init: Store, steps: seq<Step>, i: nat)
    requires i < |Reach(script, init, steps).handlers| && Reach(script, init, steps).handlers[i].pc.Ended?
    ensures
      var s := Reach(script, init, steps);
      s.handlers[i].pc.outcome == Err(Authentication) <==> exists j: nat :: RefusedNaming(init, s, i, j)
  {
    hide Execute, Reach, NamesAuthentication, RefusedKey, Before;
    var s := Reach(script, init, steps);
    var h := s.handlers[i];
    ReachInv(script, init, steps);
    ReachLogOk(script, init, steps);
    var reply :| Seen(s.log, i, h.Command(), reply) && Decides(script, h, reply, h.pc.outcome);
    var n: nat :| SeenAt(s.log, i, h.Command(), reply, n);
    if h.phase.Commit? {
      assert CommitsAt(s.log, i, n) && CommitOk(s, i, n);
      CommitKind(Before(init, s.log, n), h.op, h.expected, StatementOf(script, h.Command()));
      assert RefusedNaming(init, s, i, n) <==> h.pc.outcome == Err(Authentication);
    } else {
      ReadKind(script, Before(init, s.log, n), h, h.pc.outcome);
    }
  }

  // --- the value edit that changed under its handler ------------------------------------------

  lemma OutsideIsDisturb(s: System, step: Step)
    ensures forall e | e in Apply(s, step).log && e.Outside? :: e in s.log || step == Disturb(e.after)
  {
    hide Execute, Resume;
  }

  lemma {:induction false} OutsidesAreDisturbs(script: string, init: Store, steps: seq<Step>)
    ensures forall e | e in Reach(script, init, steps).log && e.Outside? :: Disturb(e.after) in steps
  {
    if steps != [] {
      var front := steps[..|steps| - 1];
      OutsidesAreDisturbs(script, init, front);
      OutsideIsDisturb(Reach(script, init, front), steps[|steps| - 1]);
      hide Apply;
    }
  }

  /** Around one handler that changed nothing, with one kind of disturbance, the store is one of two. */
  lemma {:induction false} OneOfTwo(script: string, init: Store, found: Store, steps: seq<Step>, n: nat)
    requires
      var s := Reach(script, init, steps);
      && n <= |s.log| && |s.handlers| == 1 && ChangedNothing(init, s.log, 0)
      && forall step | step in steps && step.Disturb? :: step.after == found
    ensures
      var before := Before(init, Reach(script, init, steps).log, n);
      before == init || before == found
  {
    var s := Reach(script, init, steps);
    if n > 0 {
      OneOfTwo(script, init, found, steps, n - 1);
      ReachInv(script, init, steps);
      OutsidesAreDisturbs(script, init, steps);
      EventLinearizes(script, init, steps, n - 1);
      assert s.log[n - 1] in s.log;
      hide Reach, Accepted, Applied, CommitVerdict, StoreAfter;
    }
  }

  /** The moment before the commit: the text is read, and another client puts a store of its own. */
  lemma ReadThenDisturbed(script: string, store: Store, found: Store, op: RowWrite) returns (steps: seq<Step>)
    requires Accepted(store, op)
    ensures
      var s := Reach(script, store, steps);
      && Idle(s, 0) && |s.handlers| == 1 && s.store == found && s.script == script
      && s.handlers[0].op == op && s.handlers[0].phase.Commit? && s.handlers[0].expected == ReadText(store, op)
    ensures forall step | step in steps && step.Disturb? :: step.after == found
  {
    var init := Initial(script, store);
    var s1 := Apply(init, Start(op));
    assert [Start(op)][..0] == [] && RunAll(init, [Start(op)]) == s1;
    var reading := LoneHandlerCommits(s1, 0);
    RunAllConcat(init, [Start(op)], reading);
    RunOne(init, [Start(op)] + reading, Disturb(found));
    steps := [Start(op)] + reading + [Disturb(found)];
    hide RunAll, Accepted, ReadText;
  }

  lemma ChangedIsRefused(found: Store, op: RowWrite, expected: string)
    requires op.EditsValue() && Accepted(found, op) && |expected| <= MAX_CELL && ReadText(found, op) != Some(expected)
    ensures
      Execute(found, CommitCommand(op, Some(expected))) ==
      Effect(found, Fail("cannot edit value: " + op.key + " changed concurrently"))
  {
    ReadTextIs(found, op, expected);
    hide Encode, EditableText;
  }

  /**
   The failure without a sequential explanation. For every value edit and every
   two stores where it is allowed, with different texts at its source: there is a
   run in which another client turns the one into the other, the edit is refused,
   and yet at every moment of the run the edit alone would have succeeded.
   */
  lemma ChangedConcurrently(script: string, store: Store, found: Store, op: RowWrite) returns (steps: seq<Step>)
    requires op.EditsValue() && Accepted(store, op) && Accepted(found, op)
    requires ReadText(store, op) != ReadText(found, op)
    ensures
      var s := Reach(script, store, steps);
      && |s.handlers| == 1 && s.handlers[0].op == op && s.store == found
      && s.handlers[0].pc == Ended(Err(if NamesAuthentication(op.key) then Authentication else Operation))
      && forall n: nat | n <= |s.log| :: Solo(script, Before(store, s.log, n), op).1.Ok?
  {
    hide RunAll, Accepted, ReadText, Solo, NamesAuthentication;
    var before := ReadThenDisturbed(script, store, found, op);
    var commit := [Check(0), Acquire(0)] + [Run(0), Receive(0)];
    EditableIsRead(store, op);
    ChangedAtCommit(Reach(script, store, before), ReadText(store, op).value);
    RunAllConcat(Initial(script, store), before, commit);
    steps := before + commit;
    EditWasAllowedThroughout(script, store, found, op, steps);
  }

  lemma EditableIsRead(store: Store, op: RowWrite)
    requires op.EditsValue() && Accepted(store, op)
    ensures ReadText(store, op).Some? && |ReadText(store, op).value| <= MAX_CELL
  {
    hide Encode, Decode;
  }

  /** A commit whose text has gone ends the edit, and leaves the store. */
  lemma ChangedAtCommit(s: System, expected: string)
    requires Idle(s, 0) && |s.handlers| == 1 && s.handlers[0].phase.Commit? && s.handlers[0].expected == Some(expected)
    requires s.handlers[0].op.EditsValue() && Accepted(s.store, s.handlers[0].op)
    requires |expected| <= MAX_CELL && ReadText(s.store, s.handlers[0].op) != Some(expected)
    ensures
      var op := s.handlers[0].op;
      var t := RunAll(s, [Check(0), Acquire(0)] + [Run(0), Receive(0)]);
      && |t.handlers| == 1 && t.handlers[0].op == op && t.store == s.store
      && t.handlers[0].pc == Ended(Err(if NamesAuthentication(op.key) then Authentication else Operation))
  {
    hide RunAll, Accepted, ReadText, NamesAuthentication, Execute, UpdateScript;
    var op := s.handlers[0].op;
    ChangedIsRefused(s.store, op, expected);
    ChangedText(op.key);
    OneCommand(s, 0);
  }

  lemma EditWasAllowedThroughout(script: string, store: Store, found: Store, op: RowWrite, steps: seq<Step>)
    requires Accepted(store, op) && Accepted(found, op)
    requires
      var s := Reach(script, store, steps);
      && |s.handlers| == 1 && s.handlers[0].pc.Ended? && s.handlers[0].pc.outcome.Err?
      && forall step | step in steps && step.Disturb? :: step.after == found
    ensures
      var s := Reach(script, store, steps);
      forall n: nat | n <= |s.log| :: Solo(script, Before(store, s.log, n), op).1.Ok?
  {
    hide Reach, Solo, Accepted, Before;
    var s := Reach(script, store, steps);
    var j := FailureLinearizes(script, store, steps, 0);
    forall n: nat | n <= |s.log| ensures Solo(script, Before(store, s.log, n), op).1.Ok? {
      OneOfTwo(script, store, found, steps, n);
      SoloMeaning(script, Before(store, s.log, n), op);
    }
  }

  /** An edit of a key that is there and may be edited can be an authentication failure, too. */
  lemma EditKindExample(script: string) returns (init: Store, steps: seq<Step>)
    ensures
      var s := Reach(script, init, steps);
      && |s.handlers| == 1 && s.handlers[0].op.EditsValue() && s.handlers[0].pc == Ended(Err(Authentication))
      && Accepted(init, s.handlers[0].op) && Accepted(s.store, s.handlers[0].op)
  {
    var op := Update("NOAUTH", None, Some("new"));
    var key := Encode("NOAUTH");
    var found: Store := map[key := Str(Encode("b"))];
    init := map[key := Str(Encode("a"))];
    DecodeIffEncode(Encode("a"), "a");
    DecodeIffEncode(Encode("b"), "b");
    assert "NOAUTH"[0..] == "NOAUTH" && NamesAuthentication("NOAUTH");
    assert ReadText(init, op) == Some("a") && ReadText(found, op) == Some("b");
    hide Encode, Decode;
    steps := ChangedConcurrently(script, init, found, op);
  }

  // --- a write alone ----------------------------------------------------------------------------

  /** Alone, a value edit is never refused with an authentication failure. */
  lemma EditKind(script: string, store: Store, op: RowWrite)
    requires op.EditsValue() && !Accepted(store, op)
    ensures Solo(script, store, op).1 == Err(Operation)
  {
    hide Encode, StatementOf, Decode, UpdateScript, MapRedisError;
    EncodeInjective(op.key, op.Destination());
    if TypeName(store, Encode(op.key)) == "string" {
      assert Solo(script, store, op) == SoloFrom(script, store, op, ReadValue, None);
      var expected := ReadText(store, op);
      if expected.Some? {
        assert Solo(script, store, op) == SoloFrom(script, store, op, LaterPhase(op), expected);
      }
    }
  }

  /** Alone, a bare rename is refused by its EXISTS, or by the script for want of the source. */
  lemma RenameKind(script: string, store: Store, op: RowWrite)
    requires op.Update? && !op.EditsValue() && !Accepted(store, op)
    ensures
      var s, d := Encode(op.key), Encode(op.Destination());
      Solo(script, store, op).1 ==
      Err(if d != s && d in store then Operation else MapRedisError("key not found: " + op.key))
  {
    hide Encode, StatementOf, MapRedisError;
    EncodeInjective(op.key, op.Destination());
    if op.Destination() == op.key || Encode(op.Destination()) !in store {
      assert Solo(script, store, op) == SoloFrom(script, store, op, Commit, None);
    }
  }

  /** Alone, then, it takes a bare rename of a missing key of such a name, to a free destination. */
  lemma AuthenticationAlone(script: string, store: Store, op: RowWrite)
    ensures Solo(script, store, op).1 == Err(Authentication) <==>
            && op.Update? && !op.EditsValue()
            && Encode(op.key) !in store
            && (op.Destination() == op.key || Encode(op.Destination()) !in store)
            && NamesAuthentication(op.key)
  {
    SoloMeaning(script, store, op);
    EncodeInjective(op.key, op.Destination());
    if !Accepted(store, op) && op.Update? {
      NotFoundText(op.key);
      if op.EditsValue() {
        EditKind(script, store, op);
      } else {
        RenameKind(script, store, op);
      }
    }
    hide Encode, StatementOf, NamesAuthentication, UpdateScript;
  }

  /** A key named NOAUTH is enough. */
  lemma AuthenticationAloneExample(script: string)
    ensures Solo(script, map[], Update("NOAUTH", Some("other"), None)).1 == Err(Authentication)
  {
    assert "NOAUTH"[0..] == "NOAUTH";
    AuthenticationAlone(script, map[], Update("NOAUTH", Some("other"), None));
  }
}
