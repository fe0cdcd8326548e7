/**
 What row-write requests mean, read off their cells: which write, for which
 payloads and no others, and the kind of the error for all the rest.
 */
module RequestForms {
  import opened Errors
  import opened RowRequests
  import opened RowWrites
  import opened Wrappers

  /** The cells are, in some order, one plain string cell for each entry of the form, and no others. */
  ghost predicate IsForm(cells: seq<Cell>, form: map<string, string>) {
    && (forall i | 0 <= i < |cells| ::
          cells[i].name in form && cells[i].kind == "string" && cells[i].text == Some(form[cells[i].name]))
    && (forall i, j | 0 <= i < j < |cells| :: cells[i].name != cells[j].name)
    && (forall name | name in form :: exists i :: 0 <= i < |cells| && cells[i].name == name)
  }

  function Get(form: map<string, string>, name: string): Option<string> {
    if name in form then Some(form[name]) else None
  }

  /** The one-cell list that names a row. */
  predicate IsRowKey(cells: Option<seq<Cell>>, key: string) {
    cells == Some([Cell("key", "string", Some(key))])
  }

  lemma FormIsWellFormed(cells: seq<Cell>, form: map<string, string>, columns: set<string>)
    requires IsForm(cells, form) && form.Keys <= columns
    ensures WellFormed(cells, columns)
    ensures forall name: string :: Column(cells, name) == Get(form, name)
  {
    forall name: string ensures Column(cells, name) == Get(form, name) {
      ColumnFound(cells, name, columns);
      if i :| 0 <= i < |cells| && cells[i].name == name {
        EarlierColumn(cells, name, i);
      }
    }
  }

  lemma WellFormedIsForm(cells: seq<Cell>, columns: set<string>) returns (form: map<string, string>)
    requires WellFormed(cells, columns)
    ensures IsForm(cells, form) && form.Keys <= columns
  {
    var names := set i | 0 <= i < |cells| :: cells[i].name;
    form := map name | name in names :: OrEmpty(Column(cells, name));
    forall i | 0 <= i < |cells| ensures cells[i].kind == "string" && cells[i].text == Some(form[cells[i].name]) {
      EarlierColumn(cells, cells[i].name, i);
    }
  }

  lemma RowKeyIs(cells: Option<seq<Cell>>, key: string)
    ensures Identity(cells) == Ok(key) <==> IsRowKey(cells, key)
  {
    if Identity(cells) == Ok(key) {
      var cell := cells.value[0];
      assert cells.value == [cell] && cell == Cell(cell.name, cell.kind, cell.text);
    }
  }

  function ChangeForm(renameTo: Option<string>, newValue: Option<string>): map<string, string> {
    (if renameTo.Some? then map["key" := renameTo.value] else map[])
    + (if newValue.Some? then map["value" := newValue.value] else map[])
  }

  /** What an update of a row changes: a new name, a new value, at least one of them, and the name not empty. */
  ghost predicate IsChange(cells: seq<Cell>, renameTo: Option<string>, newValue: Option<string>) {
    && renameTo != Some("") && (renameTo.Some? || newValue.Some?)
    && IsForm(cells, ChangeForm(renameTo, newValue))
  }

  lemma ChangeFormIs(form: map<string, string>, renameTo: Option<string>, newValue: Option<string>)
    ensures form == ChangeForm(renameTo, newValue) <==>
            form.Keys <= {"key", "value"} && Get(form, "key") == renameTo && Get(form, "value") == newValue
  {
    var change := ChangeForm(renameTo, newValue);
    if form.Keys <= {"key", "value"} && Get(form, "key") == renameTo && Get(form, "value") == newValue {
      assert forall name :: name in form <==> name in change;
      assert forall name | name in form :: form[name] == change[name];
    }
  }

  lemma ChangeIs(cells: seq<Cell>, renameTo: Option<string>, newValue: Option<string>)
    ensures UpdateFields(cells) == Ok((renameTo, newValue)) <==> IsChange(cells, renameTo, newValue)
  {
    hide ChangeForm;
    var form, columns := ChangeForm(renameTo, newValue), {"key", "value"};
    ChangeFormIs(form, renameTo, newValue);
    if IsForm(cells, form) {
      FormIsWellFormed(cells, form, columns);
      hide IsForm, WellFormed, Column;
      assert renameTo.Some? || newValue.Some? ==> cells != [] by {
        NamedCell(cells, form);
      }
    }
    if UpdateFields(cells) == Ok((renameTo, newValue)) {
      var found := WellFormedIsForm(cells, columns);
      FormIsWellFormed(cells, found, columns);
      ChangeFormIs(found, renameTo, newValue);
      NamedCell(cells, found);
    }
  }

  lemma NamedCell(cells: seq<Cell>, form: map<string, string>)
    requires IsForm(cells, form)
    ensures cells == [] <==> form == map[]
    ensures form.Keys <= {"key", "value"} ==> (form == map[] <==> Get(form, "key").None? && Get(form, "value").None?)
  {
    if cells != [] {
      assert cells[0].name in form;
    }
    if name :| name in form && form.Keys <= {"key", "value"} {
      assert name == "key" || name == "value";
    }
  }

  /** A new row: a key, perhaps a value, and a type that says nothing or says string. */
  ghost predicate IsNewRow(form: map<string, string>, columns: set<string>, key: string, value: string) {
    && form.Keys <= columns && Get(form, "key") == Some(key)
    && value == (if "value" in form then form["value"] else "")
    && ("type" in form ==> form["type"] == "" || form["type"] == "string")
  }

  lemma NewRowIs(cells: seq<Cell>, columns: set<string>, key: string, value: string)
    ensures InsertFields(cells, columns) == Ok((key, value)) <==>
            exists form: map<string, string> :: IsForm(cells, form) && IsNewRow(form, columns, key, value)
  {
    if InsertFields(cells, columns) == Ok((key, value)) {
      var form := WellFormedIsForm(cells, columns);
      FormIsWellFormed(cells, form, columns);
      assert Get(form, "key") == Column(cells, "key") && Get(form, "value") == Column(cells, "value")
          && Get(form, "type") == Column(cells, "type");
      assert IsForm(cells, form) && IsNewRow(form, columns, key, value);
    }
    if form: map<string, string> :| IsForm(cells, form) && IsNewRow(form, columns, key, value) {
      FormIsWellFormed(cells, form, columns);
      assert Get(form, "key") == Column(cells, "key") && Get(form, "value") == Column(cells, "value")
          && Get(form, "type") == Column(cells, "type");
    }
  }

  // --- the Redis service -----------------------------------------------------------------

  /** The payloads of each operation over the `keys` table and the write each one asks for. */
  ghost predicate AsksFor(request: Request, op: RowWrite) {
    && request.table == "keys"
    && match op
       case Delete(key) =>
         && request.operation == "delete" && IsRowKey(request.key, key)
         && (request.values == None || request.values == Some([]))
       case Update(key, renameTo, newValue) =>
         && request.operation == "update" && IsRowKey(request.key, key)
         && request.values.Some? && IsChange(request.values.value, renameTo, newValue)
       case Insert(key, value) =>
         && request.operation == "insert" && request.key == None && request.values.Some?
         && exists form: map<string, string> ::
              IsForm(request.values.value, form) && IsNewRow(form, {"key", "value", "type"}, key, value)
  }

  /** A request is carried out as the one write it asks for, and refused when it asks for none. */
  lemma RequestMeaning(request: Request, op: RowWrite)
    ensures RedisWrite(request) == Ok(op) <==> AsksFor(request, op)
    ensures RedisWrite(request).Err? ==>
              RedisWrite(request).error == if request.table != "keys" then Unsupported else Validation
  {
    hide IsForm, WellFormed, Column;
    match op
    case Delete(key) => RowKeyIs(request.key, key);
    case Update(key, renameTo, newValue) =>
      RowKeyIs(request.key, key);
      if request.values.Some? {
        ChangeIs(request.values.value, renameTo, newValue);
      }
    case Insert(key, value) =>
      if request.values.Some? {
        NewRowIs(request.values.value, {"key", "value", "type"}, key, value);
      }
  }

  // --- the in-memory service -----------------------------------------------------------------

  /** The in-memory service looks at no more of a payload than the operation needs, and knows no type. */
  ghost predicate MemoryAsksFor(request: Request, op: RowWrite) {
    && request.table == "kv"
    && match op
       case Delete(key) => request.operation == "delete" && IsRowKey(request.key, key)
       case Update(key, renameTo, newValue) =>
         && request.operation == "update" && IsRowKey(request.key, key)
         && request.values.Some? && IsChange(request.values.value, renameTo, newValue)
       case Insert(key, value) =>
         && request.operation == "insert" && request.values.Some?
         && exists form: map<string, string> ::
              IsForm(request.values.value, form) && IsNewRow(form, {"key", "value"}, key, value)
  }

  lemma MemoryRequestMeaning(request: Request, op: RowWrite)
    ensures MemoryWrite(request) == Ok(op) <==> MemoryAsksFor(request, op)
    ensures MemoryWrite(request).Err? ==>
              MemoryWrite(request).error == if request.table != "kv" then Unsupported else Validation
  {
    hide IsForm, WellFormed, Column;
    match op
    case Delete(key) => RowKeyIs(request.key, key);
    case Update(key, renameTo, newValue) =>
      RowKeyIs(request.key, key);
      if request.values.Some? {
        ChangeIs(request.values.value, renameTo, newValue);
      }
    case Insert(key, value) =>
      if request.values.Some? {
        NewRowIs(request.values.value, {"key", "value"}, key, value);
      }
  }

  /** Cell by cell: each changed column goes where its name says. */
  lemma UpdateColumns(request: Request, op: RowWrite, i: nat)
    requires RedisWrite(request) == Ok(op) && request.operation == "update"
    requires request.values.Some? && i < |request.values.value|
    ensures op.Update? && (request.values.value[i].name == "key" || request.values.value[i].name == "value")
    ensures request.values.value[i].name == "key" ==> op.renameTo == request.values.value[i].text != None
    ensures request.values.value[i].name == "value" ==> op.newValue == request.values.value[i].text != None
  {
    RequestMeaning(request, op);
  }
}
