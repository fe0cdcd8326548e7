/** Statements read off their letters: what is a browse, what a native command, and what an error. */
module StatementForms {
  import opened Decimal
  import opened Errors
  import opened ShellWords
  import opened StatementLaws
  import opened Statements
  import opened Wrappers

  /** Every letter is that of the word, in either case. */
  predicate Spells(token: string, upper: string, lower: string)
    requires |upper| == |lower|
  {
    |token| == |upper| && forall i | 0 <= i < |token| :: token[i] == upper[i] || token[i] == lower[i]
  }

  lemma Spelling(token: string, upper: string, lower: string)
    requires |upper| == |lower|
    requires forall i | 0 <= i < |upper| :: 'A' <= upper[i] <= 'Z' && lower[i] as int == upper[i] as int + 32
    ensures SameIgnoringCase(token, upper) <==> Spells(token, upper, lower)
  {
  }

  lemma KeywordSpellings(token: string)
    ensures SameIgnoringCase(token, "SELECT") <==> Spells(token, "SELECT", "select")
    ensures SameIgnoringCase(token, "FROM") <==> Spells(token, "FROM", "from")
    ensures SameIgnoringCase(token, "KEYS") <==> Spells(token, "KEYS", "keys")
    ensures SameIgnoringCase(token, "LIMIT") <==> Spells(token, "LIMIT", "limit")
    ensures SameIgnoringCase(token, "OFFSET") <==> Spells(token, "OFFSET", "offset")
  {
    Spelling(token, "SELECT", "select");
    Spelling(token, "FROM", "from");
    Spelling(token, "KEYS", "keys");
    Spelling(token, "LIMIT", "limit");
    Spelling(token, "OFFSET", "offset");
  }

  /** The first two tokens of a query over the virtual table. */
  predicate StartsQuery(tokens: seq<string>) {
    |tokens| >= 2 && Spells(tokens[0], "SELECT", "select") && tokens[1] == "*"
  }

  predicate IsBlankText(statement: string) {
    forall c | c in statement :: IsWhite(c)
  }

  /** Of the ASCII characters the blank, the tab, the line and page breaks, and no other, are white. */
  lemma WhiteAscii(c: char)
    requires c as int < 128
    ensures IsWhite(c) <==> c == ' ' || c == '\t' || c == '\n' || c == '\r' || c as int == 11 || c as int == 12
  {
  }

  /** Blank and unclosed lines are errors, a query is read by its grammar, and all else is a native command. */
  lemma StatementMeaning(statement: string)
    ensures
      ParseStatement(statement) ==
      if IsBlankText(statement) || Split(statement).None? then Err(Validation)
      else if StartsQuery(Split(statement).value) then Select(Split(statement).value)
      else Ok(Redis(Split(statement).value))
  {
    hide Split, Select;
    if Split(statement).Some? && Split(statement).value != [] {
      KeywordSpellings(Split(statement).value[0]);
    }
  }

  predicate SpellsPaging(clauses: seq<string>, offset: nat, limit: Option<nat>) {
    || (clauses == [] && offset == 0 && limit == None)
    || (SpellsLimit(clauses, limit) && offset == 0)
    || (SpellsOffset(clauses, offset) && limit == None)
    || (|clauses| == 4 && SpellsLimit(clauses[..2], limit) && SpellsOffset(clauses[2..], offset))
    || (|clauses| == 4 && SpellsOffset(clauses[..2], offset) && SpellsLimit(clauses[2..], limit))
  }

  predicate SpellsLimit(clauses: seq<string>, limit: Option<nat>) {
    |clauses| == 2 && Spells(clauses[0], "LIMIT", "limit") && limit.Some? && ParseUsize(clauses[1]) == limit
  }

  predicate SpellsOffset(clauses: seq<string>, offset: nat) {
    |clauses| == 2 && Spells(clauses[0], "OFFSET", "offset") && ParseUsize(clauses[1]) == Some(offset)
  }

  /** `SELECT * FROM keys [LIMIT n] [OFFSET m]`, the clauses in either order, letters in either case. */
  predicate SpellsBrowse(tokens: seq<string>, offset: nat, limit: Option<nat>) {
    && StartsQuery(tokens) && |tokens| >= 4
    && Spells(tokens[2], "FROM", "from") && Spells(tokens[3], "KEYS", "keys")
    && SpellsPaging(tokens[4..], offset, limit)
  }

  /** A browse without a terminator, or with a last token `;` or `;;`, or with one `;` glued to its last token. */
  ghost predicate IsBrowse(tokens: seq<string>, offset: nat, limit: Option<nat>) {
    || SpellsBrowse(tokens, offset, limit)
    || (tokens != [] && (Last(tokens) == ";" || Last(tokens) == ";;") && SpellsBrowse(DropLast(tokens), offset, limit))
    || exists last: string ::
         && tokens != [] && last != "" && Last(tokens) == last + ";"
         && SpellsBrowse(DropLast(tokens) + [last], offset, limit)
  }

  lemma BodySpelled(tokens: seq<string>, offset: nat, limit: Option<nat>)
    ensures StartsQuery(tokens) && IsSelectBody(tokens, offset, limit) <==> SpellsBrowse(tokens, offset, limit)
  {
    forall token: string
      ensures SameIgnoringCase(token, "FROM") <==> Spells(token, "FROM", "from")
      ensures SameIgnoringCase(token, "KEYS") <==> Spells(token, "KEYS", "keys")
      ensures SameIgnoringCase(token, "LIMIT") <==> Spells(token, "LIMIT", "limit")
      ensures SameIgnoringCase(token, "OFFSET") <==> Spells(token, "OFFSET", "offset")
    {
      KeywordSpellings(token);
    }
    hide SameIgnoringCase, Spells, ParseUsize;
  }

  /** Cutting or changing the last of more than two tokens leaves the start. */
  lemma StartKept(tokens: seq<string>, last: string)
    requires |tokens| >= 3
    ensures StartsQuery(DropLast(tokens)) <==> StartsQuery(tokens)
    ensures StartsQuery(DropLast(tokens) + [last]) <==> StartsQuery(tokens)
  {
    hide Spells;
  }

  lemma GluedSpelled(tokens: seq<string>, offset: nat, limit: Option<nat>)
    requires tokens != [] && Last(tokens) != ";"
    ensures EndsWithSemicolon(Last(tokens)) && StartsQuery(tokens)
            && IsSelectBody(DropLast(tokens) + [Last(tokens)[..|Last(tokens)| - 1]], offset, limit) <==>
            exists last: string ::
              last != "" && Last(tokens) == last + ";" && SpellsBrowse(DropLast(tokens) + [last], offset, limit)
  {
    hide StartsQuery, IsSelectBody, SpellsBrowse;
    var token := Last(tokens);
    if EndsWithSemicolon(token) {
      var last := token[..|token| - 1];
      assert token == last + ";";
      BodySpelled(DropLast(tokens) + [last], offset, limit);
      var body := DropLast(tokens) + [last];
      if IsSelectBody(body, offset, limit) || SpellsBrowse(body, offset, limit) {
        LongEnough(body, offset, limit);
        StartKept(tokens, last);
      }
    }
    forall last: string | Last(tokens) == last + ";"
      ensures EndsWithSemicolon(token) && last == token[..|token| - 1]
    {
    }
  }

  lemma LongEnough(tokens: seq<string>, offset: nat, limit: Option<nat>)
    requires IsSelectBody(tokens, offset, limit) || SpellsBrowse(tokens, offset, limit)
    ensures |tokens| >= 4
  {
  }

  lemma EndedSpelled(tokens: seq<string>, offset: nat, limit: Option<nat>)
    requires tokens != []
    ensures StartsQuery(tokens) && IsSelectBody(DropLast(tokens), offset, limit) <==>
            SpellsBrowse(DropLast(tokens), offset, limit)
  {
    hide StartsQuery, IsSelectBody, SpellsBrowse;
    BodySpelled(DropLast(tokens), offset, limit);
    if IsSelectBody(DropLast(tokens), offset, limit) || SpellsBrowse(DropLast(tokens), offset, limit) {
      LongEnough(DropLast(tokens), offset, limit);
      StartKept(tokens, "");
    }
  }

  /** From the text on: which lines are a browse, of which page, and that no other line is. */
  lemma BrowseExactly(statement: string, offset: nat, limit: Option<nat>)
    ensures ParseStatement(statement) == Ok(SelectKeys(offset, limit)) <==>
            !IsBlankText(statement) && Split(statement).Some? && IsBrowse(Split(statement).value, offset, limit)
  {
    StatementMeaning(statement);
    if Split(statement).Some? && Split(statement).value != [] {
      var tokens := Split(statement).value;
      SelectGrammar(tokens, offset, limit);
      BodySpelled(tokens, offset, limit);
      EndedSpelled(tokens, offset, limit);
      if Last(tokens) != ";" {
        GluedSpelled(tokens, offset, limit);
      }
      hide Select, StartsQuery, IsSelectBody, SpellsBrowse, Split, ParseStatement;
      assert forall last: string | last != "" && Last(tokens) == ";" :: Last(tokens) != last + ";";
    }
  }

  // --- the reported browse ----------------------------------------------------------------

  /** The text of a browse: no clause for the first page of all keys, otherwise an OFFSET, after the LIMIT if any. */
  lemma SelectTextIs(offset: nat, limit: Option<nat>)
    ensures
      SelectText(offset, limit) ==
      match limit
      case None => if offset == 0 then "SELECT * FROM \"keys\"" else "SELECT * FROM \"keys\" OFFSET " + Print(offset)
      case Some(n) => "SELECT * FROM \"keys\" LIMIT " + Print(n) + " OFFSET " + Print(offset)
  {
    hide Print;
  }
}
