/**
 The statement language: a native Redis command line, rendered and parsed with
 shell quoting, or a `SELECT *` over the virtual `keys` table.
 */
module Statements {
  import opened Decimal
  import opened Errors
  import opened ShellWords
  import opened Wrappers

  datatype Statement =
    | Redis(tokens: seq<string>)
    | SelectKeys(offset: nat, limit: Option<nat>)

  /** The Unicode White_Space property, which `str::trim` removes. */
  predicate IsWhite(c: char) {
    || '\t' <= c <= '\r' || c == ' ' || c == '\U{85}' || c == '\U{A0}' || c == '\U{1680}'
    || '\U{2000}' <= c <= '\U{200A}' || c == '\U{2028}' || c == '\U{2029}' || c == '\U{202F}'
    || c == '\U{205F}' || c == '\U{3000}'
  }

  predicate IsBlankLine(s: string) {
    forall c | c in s :: IsWhite(c)
  }

  function UpperChar(c: char): char {
    if 'a' <= c <= 'z' then (c as int - 32) as char else c
  }

  predicate SameIgnoringCase(s: string, t: string) {
    |s| == |t| && forall i | 0 <= i < |s| :: UpperChar(s[i]) == UpperChar(t[i])
  }

  predicate IsSelectStar(tokens: seq<string>) {
    |tokens| >= 2 && SameIgnoringCase(tokens[0], "SELECT") && tokens[1] == "*"
  }

  function ParseStatement(statement: string): Result<Statement, ErrorKind> {
    if IsBlankLine(statement) then Err(Validation)
    else
      var tokens := Split(statement);
      if tokens.None? then Err(Validation)
      else if IsSelectStar(tokens.value) then Select(tokens.value)
      else Ok(Redis(tokens.value))
  }

  function RenderCommand(tokens: seq<string>): string {
    Join(QuoteAll(tokens))
  }

  // --- SELECT ---------------------------------------------------------------

  function StripGluedTerminator(tokens: seq<string>): seq<string> {
    if tokens != [] && EndsWithSemicolon(Last(tokens)) && |Last(tokens)| > 1
    then tokens[|tokens| - 1 := Last(tokens)[..|Last(tokens)| - 1]]
    else tokens
  }

  predicate EndsWithSemicolon(token: string) {
    token != "" && token[|token| - 1] == ';'
  }

  function Last(tokens: seq<string>): string
    requires tokens != []
  {
    tokens[|tokens| - 1]
  }

  predicate HasHeader(tokens: seq<string>) {
    |tokens| >= 4 && SameIgnoringCase(tokens[2], "FROM") && SameIgnoringCase(tokens[3], "KEYS")
  }

  /** The paging clauses from the left; an accepted clause fills its slot. */
  function Clauses(clauses: seq<string>, offset: Option<nat>, limit: Option<nat>): (r: Result<Statement, ErrorKind>)
    ensures r.Ok? ==> r.value.SelectKeys?
  {
    if clauses == [] || clauses == [";"] then
      Ok(SelectKeys(if offset.Some? then offset.value else 0, limit))
    else if clauses[0] == ";" || |clauses| < 2 then Err(Validation)
    else
      var value := ParseUsize(clauses[1]);
      if value.None? then Err(Validation)
      else if SameIgnoringCase(clauses[0], "LIMIT") && limit.None? then
        Clauses(clauses[2..], offset, value)
      else if SameIgnoringCase(clauses[0], "OFFSET") && offset.None? then
        Clauses(clauses[2..], value, limit)
      else Err(Validation)
  }

  function Select(tokens: seq<string>): Result<Statement, ErrorKind> {
    var stripped := StripGluedTerminator(tokens);
    if !HasHeader(stripped) then Err(Validation)
    else Clauses(stripped[4..], None, None)
  }

  method ParsePageSize(tokens: seq<string>, index: nat) returns (r: Option<nat>)
    ensures r == if index < |tokens| then ParseUsize(tokens[index]) else None
  {
    if index >= |tokens| {
      return None;
    }
    return ParseUsize(tokens[index]);
  }

  method ParseSelect(tokens: seq<string>) returns (r: Result<Statement, ErrorKind>)
    ensures r == Select(tokens)
  {
    var stripped := tokens;
    if stripped != [] {
      var last := Last(stripped);
      if EndsWithSemicolon(last) && last[..|last| - 1] != "" {
        stripped := stripped[|stripped| - 1 := last[..|last| - 1]];
      }
    }
    if |stripped| < 3 || !SameIgnoringCase(stripped[2], "FROM") {
      return Err(Validation);
    }
    if |stripped| < 4 || !SameIgnoringCase(stripped[3], "KEYS") {
      return Err(Validation);
    }
    var offset, limit, offsetSeen := 0, None, false;
    var index := 4;
    while index < |stripped|
      invariant 4 <= index <= |stripped|
      invariant !offsetSeen ==> offset == 0
      invariant Select(tokens) == Clauses(stripped[index..], if offsetSeen then Some(offset) else None, limit)
    {
      var token := stripped[index];
      if token == ";" {
        if |stripped| != index + 1 {
          return Err(Validation);
        }
        assert stripped[index..] == [";"];
        return Ok(SelectKeys(offset, limit));
      }
      var value := ParsePageSize(stripped, index + 1);
      if SameIgnoringCase(token, "LIMIT") {
        if value.None? || limit.Some? {
          return Err(Validation);
        }
        limit := value;
      } else if SameIgnoringCase(token, "OFFSET") {
        if value.None? || offsetSeen {
          return Err(Validation);
        }
        offsetSeen, offset := true, value.value;
      } else {
        return Err(Validation);
      }
      assert stripped[index..][2..] == stripped[index + 2..];
      index := index + 2;
    }
    return Ok(SelectKeys(offset, limit));
  }

  /** The pseudo-command reported for one browse of the keys table. */
  method SelectStatement(offset: nat, limit: Option<nat>) returns (statement: string)
    ensures statement == SelectText(offset, limit)
  {
    statement := "SELECT * FROM \"keys\"";
    if limit.Some? {
      statement := statement + " LIMIT " + Print(limit.value);
    }
    if offset > 0 || limit.Some? {
      statement := statement + " OFFSET " + Print(offset);
    }
  }

  function SelectText(offset: nat, limit: Option<nat>): string {
    "SELECT * FROM \"keys\""
    + (if limit.Some? then " LIMIT " + Print(limit.value) else "")
    + (if offset > 0 || limit.Some? then " OFFSET " + Print(offset) else "")
  }
}
