/**
 Row-write requests: what the Redis service and the in-memory service accept.
 The functions state which requests are accepted and as what; the methods are
 the cell loops that decide it.
 */
module RowRequests {
  import opened Errors
  import opened RowWrites
  import opened Wrappers

  /** One named cell; `text` is the string payload when there is one. */
  datatype Cell = Cell(name: string, kind: string, text: Option<string>)

  datatype Request = Request(operation: string, table: string, key: Option<seq<Cell>>, values: Option<seq<Cell>>)

  /** Only a plain string cell has a text. */
  function CellText(cell: Cell): Option<string> {
    if cell.kind == "string" then cell.text else None
  }

  /** Every cell is one of the named columns, at most once, and a plain string. */
  ghost predicate WellFormed(cells: seq<Cell>, columns: set<string>) {
    && (forall i | 0 <= i < |cells| :: cells[i].name in columns && CellText(cells[i]).Some?)
    && (forall i, j | 0 <= i < j < |cells| :: cells[i].name != cells[j].name)
  }

  /** The text of a named cell, if there is such a cell. */
  function Column(cells: seq<Cell>, name: string): Option<string> {
    if cells == [] then None
    else if cells[|cells| - 1].name == name then CellText(cells[|cells| - 1])
    else Column(cells[..|cells| - 1], name)
  }

  ghost function Identity(cells: Option<seq<Cell>>): Result<string, ErrorKind> {
    if cells.Some? && |cells.value| == 1 && WellFormed(cells.value, {"key"})
    then Ok(CellText(cells.value[0]).value) else Err(Validation)
  }

  ghost function UpdateFields(cells: seq<Cell>): Result<(Option<string>, Option<string>), ErrorKind> {
    if cells != [] && WellFormed(cells, {"key", "value"}) && Column(cells, "key") != Some("")
    then Ok((Column(cells, "key"), Column(cells, "value"))) else Err(Validation)
  }

  function OrEmpty(text: Option<string>): string {
    if text.Some? then text.value else ""
  }

  ghost function InsertFields(cells: seq<Cell>, columns: set<string>): Result<(string, string), ErrorKind> {
    if && WellFormed(cells, columns)
       && Column(cells, "key").Some?
       && OrEmpty(Column(cells, "type")) in {"", "string"}
    then Ok((Column(cells, "key").value, OrEmpty(Column(cells, "value")))) else Err(Validation)
  }

  const REDIS_INSERT_COLUMNS := {"key", "value", "type"}
  const MEMORY_INSERT_COLUMNS := {"key", "value"}

  /** The write a request over the `keys` table asks the Redis service for. */
  ghost function RedisWrite(request: Request): Result<RowWrite, ErrorKind> {
    if request.table != "keys" then Err(Unsupported)
    else if request.operation == "delete" then
      if request.values.Some? && request.values.value != [] then Err(Validation)
      else AsDelete(Identity(request.key))
    else if request.operation == "update" then
      if request.values.None? then Err(Validation)
      else AsUpdate(Identity(request.key), UpdateFields(request.values.value))
    else if request.operation == "insert" then
      if request.key.Some? || request.values.None? then Err(Validation)
      else AsInsert(InsertFields(request.values.value, REDIS_INSERT_COLUMNS))
    else Err(Validation)
  }

  /** The write a request over the `kv` table asks the in-memory service for. */
  ghost function MemoryWrite(request: Request): Result<RowWrite, ErrorKind> {
    if request.table != "kv" then Err(Unsupported)
    else if request.operation == "insert" then
      if request.values.None? then Err(Validation)
      else AsInsert(InsertFields(request.values.value, MEMORY_INSERT_COLUMNS))
    else if request.operation == "update" then
      if request.values.None? then Err(Validation)
      else AsUpdate(Identity(request.key), UpdateFields(request.values.value))
    else if request.operation == "delete" then AsDelete(Identity(request.key))
    else Err(Validation)
  }

  function AsDelete(key: Result<string, ErrorKind>): Result<RowWrite, ErrorKind> {
    if key.Err? then Err(key.error) else Ok(Delete(key.value))
  }

  function AsUpdate(
    key: Result<string, ErrorKind>, fields: Result<(Option<string>, Option<string>), ErrorKind>
  ): Result<RowWrite, ErrorKind> {
    if key.Err? then Err(key.error)
    else if fields.Err? then Err(fields.error)
    else Ok(Update(key.value, fields.value.0, fields.value.1))
  }

  function AsInsert(fields: Result<(string, string), ErrorKind>): Result<RowWrite, ErrorKind> {
    if fields.Err? then Err(fields.error) else Ok(Insert(fields.value.0, fields.value.1))
  }

  // --- the loops --------------------------------------------------------------

  method RequireString(cell: Cell) returns (r: Result<string, ErrorKind>)
    ensures r == if CellText(cell).Some? then Ok(CellText(cell).value) else Err(Validation)
  {
    if cell.kind != "string" {
      return Err(Validation);
    }
    match cell.text
    case Some(text) => return Ok(text);
    case None => return Err(Validation);
  }

  method ParseIdentity(cells: Option<seq<Cell>>) returns (r: Result<string, ErrorKind>)
    ensures r == Identity(cells)
  {
    if cells.None? {
      return Err(Validation);
    }
    var found: Option<string> := None;
    var i := 0;
    while i < |cells.value|
      invariant 0 <= i <= |cells.value|
      invariant if i == 0 then found == None
                else i == 1 && WellFormed(cells.value[..1], {"key"}) && found == CellText(cells.value[0])
    {
      var cell := cells.value[i];
      if cell.name != "key" || found.Some? {
        return Err(Validation);
      }
      var text := RequireString(cell);
      if text.Err? {
        return Err(Validation);
      }
      found := Some(text.value);
      i := i + 1;
    }
    return if found.Some? then Ok(found.value) else Err(Validation);
  }

  lemma WellFormedSnoc(cells: seq<Cell>, columns: set<string>, i: nat)
    requires i < |cells|
    ensures WellFormed(cells[..i + 1], columns) <==>
            && WellFormed(cells[..i], columns)
            && cells[i].name in columns && CellText(cells[i]).Some?
            && Column(cells[..i], cells[i].name) == None
    ensures cells[..i + 1][..i] == cells[..i]
    ensures WellFormed(cells, columns) ==> WellFormed(cells[..i + 1], columns)
  {
    assert cells[..i + 1][..i] == cells[..i];
    if WellFormed(cells[..i], columns) {
      ColumnFound(cells[..i], cells[i].name, columns);
    }
    if WellFormed(cells[..i + 1], columns) {
      assert WellFormed(cells[..i], columns) by {
        assert forall k | 0 <= k < i :: cells[..i][k] == cells[..i + 1][k];
      }
      forall k | 0 <= k < i ensures cells[..i][k].name != cells[i].name {
        assert cells[..i + 1][k].name != cells[..i + 1][i].name;
      }
    }
  }

  lemma {:induction false} ColumnFound(cells: seq<Cell>, name: string, columns: set<string>)
    requires WellFormed(cells, columns)
    ensures Column(cells, name) == None <==> forall i | 0 <= i < |cells| :: cells[i].name != name
  {
    if cells != [] && cells[|cells| - 1].name != name {
      var front := cells[..|cells| - 1];
      ColumnFound(front, name, columns);
      assert forall i | 0 <= i < |front| :: front[i] == cells[i];
    }
  }

  method ParseUpdateValues(cells: seq<Cell>) returns (r: Result<(Option<string>, Option<string>), ErrorKind>)
    ensures r == UpdateFields(cells)
  {
    var renameTo: Option<string>, value: Option<string> := None, None;
    var i := 0;
    while i < |cells|
      invariant 0 <= i <= |cells|
      invariant WellFormed(cells[..i], {"key", "value"})
      invariant renameTo == Column(cells[..i], "key") && value == Column(cells[..i], "value")
      invariant renameTo != Some("")
      invariant i > 0 ==> renameTo.Some? || value.Some?
    {
      var cell := cells[i];
      WellFormedSnoc(cells, {"key", "value"}, i);
      var text := RequireString(cell);
      if cell.name == "key" {
        if renameTo.Some? || text.Err? {
          return Err(Validation);
        }
        if text.value == "" {
          EarlierColumn(cells, "key", i);
          return Err(Validation);
        }
        renameTo := Some(text.value);
      } else if cell.name == "value" {
        if value.Some? || text.Err? {
          return Err(Validation);
        }
        value := Some(text.value);
      } else {
        return Err(Validation);
      }
      i := i + 1;
    }
    assert cells[..i] == cells;
    if renameTo.None? && value.None? {
      return Err(Validation);
    }
    return Ok((renameTo, value));
  }

  /** In well-formed cells, a column keeps its text however many cells follow. */
  lemma {:induction false} EarlierColumn(cells: seq<Cell>, name: string, i: nat)
    requires i < |cells| && cells[i].name == name
    ensures forall columns | WellFormed(cells, columns) :: Column(cells, name) == CellText(cells[i])
    decreases |cells|
  {
    forall columns | WellFormed(cells, columns)
      ensures Column(cells, name) == CellText(cells[i])
    {
      if i < |cells| - 1 {
        var front := cells[..|cells| - 1];
        assert forall k | 0 <= k < |front| :: front[k] == cells[k];
        assert WellFormed(front, columns);
        EarlierColumn(front, name, i);
      }
    }
  }

  method ParseInsertValues(cells: seq<Cell>) returns (r: Result<(string, string), ErrorKind>)
    ensures r == InsertFields(cells, REDIS_INSERT_COLUMNS)
  {
    var key: Option<string>, value: Option<string> := None, None;
    var typeSeen := false;
    var i := 0;
    while i < |cells|
      invariant 0 <= i <= |cells|
      invariant WellFormed(cells[..i], REDIS_INSERT_COLUMNS)
      invariant key == Column(cells[..i], "key") && value == Column(cells[..i], "value")
      invariant typeSeen <==> Column(cells[..i], "type").Some?
      invariant OrEmpty(Column(cells[..i], "type")) in {"", "string"}
    {
      var cell := cells[i];
      WellFormedSnoc(cells, REDIS_INSERT_COLUMNS, i);
      var text := RequireString(cell);
      if cell.name == "key" {
        if key.Some? || text.Err? {
          return Err(Validation);
        }
        key := Some(text.value);
      } else if cell.name == "value" {
        if value.Some? || text.Err? {
          return Err(Validation);
        }
        value := Some(text.value);
      } else if cell.name == "type" {
        if typeSeen || text.Err? {
          return Err(Validation);
        }
        typeSeen := true;
        if text.value != "" && text.value != "string" {
          EarlierColumn(cells, "type", i);
          return Err(Validation);
        }
      } else {
        return Err(Validation);
      }
      i := i + 1;
    }
    assert cells[..i] == cells;
    if key.None? {
      return Err(Validation);
    }
    return Ok((key.value, OrEmpty(value)));
  }

  method ParseMemoryInsert(cells: seq<Cell>) returns (r: Result<(string, string), ErrorKind>)
    ensures r == InsertFields(cells, MEMORY_INSERT_COLUMNS)
  {
    var key: Option<string>, value: Option<string> := None, None;
    var i := 0;
    while i < |cells|
      invariant 0 <= i <= |cells|
      invariant WellFormed(cells[..i], MEMORY_INSERT_COLUMNS)
      invariant key == Column(cells[..i], "key") && value == Column(cells[..i], "value")
      invariant Column(cells[..i], "type") == None
    {
      var cell := cells[i];
      WellFormedSnoc(cells, MEMORY_INSERT_COLUMNS, i);
      var text := RequireString(cell);
      if cell.name == "key" {
        if key.Some? || text.Err? {
          return Err(Validation);
        }
        key := Some(text.value);
      } else if cell.name == "value" {
        if value.Some? || text.Err? {
          return Err(Validation);
        }
        value := Some(text.value);
      } else {
        return Err(Validation);
      }
      i := i + 1;
    }
    assert cells[..i] == cells;
    if key.None? {
      return Err(Validation);
    }
    return Ok((key.value, OrEmpty(value)));
  }

  method ParseRowWrite(request: Request) returns (r: Result<RowWrite, ErrorKind>)
    ensures r == RedisWrite(request)
  {
    if request.table != "keys" {
      return Err(Unsupported);
    }
    if request.operation == "delete" {
      if request.values.Some? && request.values.value != [] {
        return Err(Validation);
      }
      var key := ParseIdentity(request.key);
      return AsDelete(key);
    } else if request.operation == "update" {
      var key := ParseIdentity(request.key);
      if key.Err? || request.values.None? {
        return Err(Validation);
      }
      var fields := ParseUpdateValues(request.values.value);
      return AsUpdate(key, fields);
    } else if request.operation == "insert" {
      if request.key.Some? || request.values.None? {
        return Err(Validation);
      }
      var fields := ParseInsertValues(request.values.value);
      return AsInsert(fields);
    }
    return Err(Validation);
  }

  // --- the two services' requests compared ------------------------------------

  ghost predicate HasTypeCell(request: Request) {
    request.values.Some? && exists i | 0 <= i < |request.values.value| :: request.values.value[i].name == "type"
  }

  /** The payloads on which the two parsers follow the same rules. */
  ghost predicate SameRules(request: Request) {
    && (request.operation == "delete" ==> request.values.None? || request.values.value == [])
    && (request.operation == "insert" ==> request.key.None? && !HasTypeCell(request))
  }

  /**
   Where the rules are the same the two services read the same write out of a
   request; everywhere else at most one of them accepts it.
   */
  lemma RequestsCompared(request: Request)
    ensures
      var redis, memory := RedisWrite(request.(table := "keys")), MemoryWrite(request.(table := "kv"));
      if SameRules(request) then redis == memory else redis.Err? || memory.Err?
  {
    if request.operation == "insert" && request.values.Some? {
      var cells := request.values.value;
      if HasTypeCell(request) {
        var i :| 0 <= i < |cells| && cells[i].name == "type";
        assert !WellFormed(cells, MEMORY_INSERT_COLUMNS);
      } else {
        assert WellFormed(cells, MEMORY_INSERT_COLUMNS) <==> WellFormed(cells, REDIS_INSERT_COLUMNS);
      }
    }
  }
}
