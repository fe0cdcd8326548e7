/** Printing and parsing statements: round trips, and the SELECT grammar. */
module StatementLaws {
  import opened Decimal
  import opened Errors
  import opened ShellWords
  import opened Statements
  import opened Wrappers

  // --- native command lines -------------------------------------------------

  /** Something on the rendered line is not white space: a quote or a visible character. */
  predicate HasInk(tokens: seq<string>) {
    exists t | t in tokens :: NeedsQuotes(t) || !IsBlankLine(t)
  }

  lemma QuoteBlank(word: string)
    ensures IsBlankLine(Quote(word)) <==> !NeedsQuotes(word) && IsBlankLine(word)
  {
    if NeedsQuotes(word) {
      assert Quote(word)[0] in Quote(word);
    }
  }

  lemma {:induction false} JoinBlank(words: seq<string>)
    ensures IsBlankLine(Join(words)) <==> forall w | w in words :: IsBlankLine(w)
  {
    if words == [] {
    } else if |words| == 1 {
      assert words == [words[0]];
    } else {
      JoinBlank(words[1..]);
      var rest := Join(words[1..]);
      assert forall c :: c in words[0] + " " + rest <==> c in words[0] || c == ' ' || c in rest;
      assert IsBlankLine(Join(words)) <==> IsBlankLine(words[0]) && IsBlankLine(rest);
      assert words == [words[0]] + words[1..];
    }
  }

  lemma InkShows(tokens: seq<string>)
    ensures IsBlankLine(RenderCommand(tokens)) <==> !HasInk(tokens)
  {
    var quoted := QuoteAll(tokens);
    JoinBlank(quoted);
    if t :| t in tokens && (NeedsQuotes(t) || !IsBlankLine(t)) {
      var i :| 0 <= i < |tokens| && tokens[i] == t;
      QuoteBlank(t);
      assert quoted[i] in quoted;
    } else {
      forall w | w in quoted ensures IsBlankLine(w) {
        var i :| 0 <= i < |quoted| && quoted[i] == w;
        assert tokens[i] in tokens;
        QuoteBlank(tokens[i]);
      }
    }
  }

  /**
   A command line survives rendering and parsing exactly when it is not a
   `SELECT *` and does not render to white space only.
   */
  lemma RenderParseRoundTrip(tokens: seq<string>)
    ensures ParseStatement(RenderCommand(tokens)) == Ok(Redis(tokens)) <==> !IsSelectStar(tokens) && HasInk(tokens)
  {
    SplitJoin(tokens);
    InkShows(tokens);
  }

  /** Rendering loses nothing: two token lists with the same command line are the same. */
  lemma RenderInjective(tokens: seq<string>, others: seq<string>)
    requires RenderCommand(tokens) == RenderCommand(others)
    ensures tokens == others
  {
    SplitJoin(tokens);
    SplitJoin(others);
  }

  // --- the SELECT grammar ---------------------------------------------------

  ghost predicate IsLimit(clauses: seq<string>, limit: Option<nat>) {
    |clauses| == 2 && SameIgnoringCase(clauses[0], "LIMIT") && limit.Some? && ParseUsize(clauses[1]) == limit
  }

  ghost predicate IsOffset(clauses: seq<string>, offset: nat) {
    |clauses| == 2 && SameIgnoringCase(clauses[0], "OFFSET") && ParseUsize(clauses[1]) == Some(offset)
  }

  /** `[LIMIT n] [OFFSET m]` in either order; an absent OFFSET is 0. */
  ghost predicate IsPaging(clauses: seq<string>, offset: nat, limit: Option<nat>) {
    || (clauses == [] && offset == 0 && limit == None)
    || (IsLimit(clauses, limit) && offset == 0)
    || (IsOffset(clauses, offset) && limit == None)
    || (|clauses| == 4 && IsLimit(clauses[..2], limit) && IsOffset(clauses[2..], offset))
    || (|clauses| == 4 && IsOffset(clauses[..2], offset) && IsLimit(clauses[2..], limit))
  }

  ghost predicate IsSelectBody(tokens: seq<string>, offset: nat, limit: Option<nat>) {
    HasHeader(tokens) && IsPaging(tokens[4..], offset, limit)
  }

  function DropLast(tokens: seq<string>): seq<string>
    requires tokens != []
  {
    tokens[..|tokens| - 1]
  }

  /** The documented grammar: a body, optionally ended by one `;`, standing alone or glued. */
  ghost predicate IsDocumentedSelect(tokens: seq<string>, offset: nat, limit: Option<nat>) {
    || IsSelectBody(tokens, offset, limit)
    || (tokens != [] && Last(tokens) == ";" && IsSelectBody(DropLast(tokens), offset, limit))
    || (tokens != [] && EndsWithSemicolon(Last(tokens)) && Last(tokens) != ";"
        && IsSelectBody(DropLast(tokens) + [Last(tokens)[..|Last(tokens)| - 1]], offset, limit))
  }

  lemma NumberHasNoSemicolon(token: string)
    requires ParseUsize(token).Some?
    ensures !EndsWithSemicolon(token)
  {
    if token[0] == '+' {
      assert token[|token| - 1] == token[1..][|token| - 2];
      assert token[1..][|token| - 2] in token[1..];
    } else {
      assert token[|token| - 1] in token;
    }
  }

  lemma BodyHasNoSemicolon(tokens: seq<string>, offset: nat, limit: Option<nat>)
    requires IsSelectBody(tokens, offset, limit)
    ensures !EndsWithSemicolon(Last(tokens))
  {
    var clauses := tokens[4..];
    if clauses == [] {
      assert UpperChar(tokens[3][3]) == UpperChar("KEYS"[3]);
    } else {
      var value := clauses[|clauses| - 1];
      assert |clauses| == 4 ==> value == clauses[2..][1];
      NumberHasNoSemicolon(value);
    }
  }

  lemma KeywordsDiffer(token: string)
    ensures !(SameIgnoringCase(token, "LIMIT") && SameIgnoringCase(token, "OFFSET"))
    ensures SameIgnoringCase(token, "LIMIT") || SameIgnoringCase(token, "OFFSET") ==> token != ";"
  {
  }

  predicate IsEnd(clauses: seq<string>) {
    clauses == [] || clauses == [";"]
  }

  lemma ClausesBothSeen(clauses: seq<string>, o: nat, l: nat, offset: nat, limit: Option<nat>)
    ensures Clauses(clauses, Some(o), Some(l)) == Ok(SelectKeys(offset, limit)) <==>
            IsEnd(clauses) && offset == o && limit == Some(l)
  {
  }

  lemma ClausesOffsetSeen(clauses: seq<string>, o: nat, offset: nat, limit: Option<nat>)
    ensures Clauses(clauses, Some(o), None) == Ok(SelectKeys(offset, limit)) <==>
            offset == o && (if IsEnd(clauses) then limit == None
                            else |clauses| >= 2 && IsLimit(clauses[..2], limit) && IsEnd(clauses[2..]))
  {
    if |clauses| >= 2 && ParseUsize(clauses[1]).Some? {
      ClausesBothSeen(clauses[2..], o, ParseUsize(clauses[1]).value, offset, limit);
    }
  }

  lemma ClausesLimitSeen(clauses: seq<string>, l: nat, offset: nat, limit: Option<nat>)
    ensures Clauses(clauses, None, Some(l)) == Ok(SelectKeys(offset, limit)) <==>
            limit == Some(l) && (if IsEnd(clauses) then offset == 0
                                 else |clauses| >= 2 && IsOffset(clauses[..2], offset) && IsEnd(clauses[2..]))
  {
    if |clauses| >= 2 && ParseUsize(clauses[1]).Some? {
      ClausesBothSeen(clauses[2..], ParseUsize(clauses[1]).value, l, offset, limit);
    }
  }

  /** Paging clauses followed by nothing or by a standing `;`. */
  ghost predicate IsEndedPaging(clauses: seq<string>, offset: nat, limit: Option<nat>) {
    || IsPaging(clauses, offset, limit)
    || (clauses != [] && Last(clauses) == ";" && IsPaging(DropLast(clauses), offset, limit))
  }

  lemma EndedPagingFromLeft(clauses: seq<string>, offset: nat, limit: Option<nat>)
    requires |clauses| >= 2
    ensures IsEndedPaging(clauses, offset, limit) <==>
            || (IsLimit(clauses[..2], limit) && offset == 0 && IsEnd(clauses[2..]))
            || (IsOffset(clauses[..2], offset) && limit == None && IsEnd(clauses[2..]))
            || (|clauses| >= 4 && IsEnd(clauses[4..])
                && IsLimit(clauses[..2], limit) && IsOffset(clauses[2..4], offset))
            || (|clauses| >= 4 && IsEnd(clauses[4..])
                && IsOffset(clauses[..2], offset) && IsLimit(clauses[2..4], limit))
  {
    var front := DropLast(clauses);
    assert clauses[|clauses|..] == [] && clauses[|clauses| - 1..] == [Last(clauses)];
    assert clauses[..|clauses|] == clauses;
    if |clauses| == 4 {
      assert clauses[2..4] == clauses[2..];
    }
    if |clauses| == 5 {
      assert front[..2] == clauses[..2] && front[2..] == clauses[2..4];
    }
    if ParseUsize(";").Some? {
      NumberHasNoSemicolon(";");
    }
  }

  /** The clause loop accepts exactly the paging clauses, alone or before a standing `;`. */
  lemma ClausesGrammar(clauses: seq<string>, offset: nat, limit: Option<nat>)
    ensures Clauses(clauses, None, None) == Ok(SelectKeys(offset, limit)) <==> IsEndedPaging(clauses, offset, limit)
  {
    if |clauses| >= 2 {
      EndedPagingFromLeft(clauses, offset, limit);
      KeywordsDiffer(clauses[0]);
      if ParseUsize(clauses[1]).Some? {
        var rest := clauses[2..];
        ClausesOffsetSeen(rest, ParseUsize(clauses[1]).value, offset, limit);
        ClausesLimitSeen(rest, ParseUsize(clauses[1]).value, offset, limit);
        assert |rest| >= 2 ==> rest[..2] == clauses[2..4] && rest[2..] == clauses[4..];
      }
    }
  }

  /**
   What the parser accepts, exactly: the documented grammar, and besides it a
   body followed by the token `;;`, whose first `;` passes for a standing terminator.
   */
  lemma SelectGrammar(tokens: seq<string>, offset: nat, limit: Option<nat>)
    ensures Select(tokens) == Ok(SelectKeys(offset, limit)) <==>
            || IsDocumentedSelect(tokens, offset, limit)
            || (tokens != [] && Last(tokens) == ";;" && IsSelectBody(DropLast(tokens), offset, limit))
  {
    var stripped := StripGluedTerminator(tokens);
    if HasHeader(stripped) {
      ClausesGrammar(stripped[4..], offset, limit);
    }
    EndedSelect(stripped, offset, limit);
    if IsSelectBody(tokens, offset, limit) {
      BodyHasNoSemicolon(tokens, offset, limit);
    }
    if IsSelectBody(stripped, offset, limit) {
      BodyHasNoSemicolon(stripped, offset, limit);
    }
    if stripped != tokens {
      var glued := Last(tokens);
      assert stripped == DropLast(tokens) + [glued[..|glued| - 1]];
      assert DropLast(stripped) == DropLast(tokens);
      assert glued == glued[..|glued| - 1] + ";";
    }
  }

  lemma EndedSelect(tokens: seq<string>, offset: nat, limit: Option<nat>)
    ensures HasHeader(tokens) && IsEndedPaging(tokens[4..], offset, limit) <==>
            || IsSelectBody(tokens, offset, limit)
            || (tokens != [] && Last(tokens) == ";" && IsSelectBody(DropLast(tokens), offset, limit))
  {
    if |tokens| > 4 {
      assert DropLast(tokens)[4..] == DropLast(tokens[4..]);
    }
  }

  /** The guard under which the parser keeps to its documentation: the last token is not `;;`. */
  lemma SelectMeetsGrammar(tokens: seq<string>, offset: nat, limit: Option<nat>)
    requires tokens == [] || Last(tokens) != ";;"
    ensures Select(tokens) == Ok(SelectKeys(offset, limit)) <==> IsDocumentedSelect(tokens, offset, limit)
  {
    SelectGrammar(tokens, offset, limit);
  }

  /** With a last token `;;` the documentation accepts nothing, the parser what it would accept before `;`. */
  lemma DoubleTerminatorAccepted(body: seq<string>, offset: nat, limit: Option<nat>)
    ensures !IsDocumentedSelect(body + [";;"], offset, limit)
    ensures Select(body + [";;"]) == Ok(SelectKeys(offset, limit)) <==> IsSelectBody(body, offset, limit)
  {
    var tokens := body + [";;"];
    assert DropLast(tokens) == body && EndsWithSemicolon(";;");
    assert ";;"[..1] == ";";
    SelectGrammar(tokens, offset, limit);
    if IsSelectBody(tokens, offset, limit) {
      BodyHasNoSemicolon(tokens, offset, limit);
    }
    if IsSelectBody(body + [";"], offset, limit) {
      BodyHasNoSemicolon(body + [";"], offset, limit);
    }
  }

  /** A concrete line with two terminators that the parser accepts. */
  lemma DoubleTerminatorExample()
    ensures Select(["SELECT", "*", "FROM", "keys", ";;"]) == Ok(SelectKeys(0, None))
    ensures !IsDocumentedSelect(["SELECT", "*", "FROM", "keys", ";;"], 0, None)
  {
    var body := ["SELECT", "*", "FROM", "keys"];
    assert body[4..] == [] && HasHeader(body);
    assert body + [";;"] == ["SELECT", "*", "FROM", "keys", ";;"];
    DoubleTerminatorAccepted(body, 0, None);
  }

  /** LIMIT and OFFSET commute, whatever they hold and whatever follows. */
  lemma ClauseOrder(a: seq<string>, b: seq<string>, rest: seq<string>)
    requires |a| == |b| == 2 && SameIgnoringCase(a[0], "LIMIT") && SameIgnoringCase(b[0], "OFFSET")
    ensures Clauses(a + b + rest, None, None) == Clauses(b + a + rest, None, None)
  {
    KeywordsDiffer(a[0]);
    KeywordsDiffer(b[0]);
    var ab, ba := a + b + rest, b + a + rest;
    assert ab[2..] == b + rest && ba[2..] == a + rest;
    assert ab[2..][2..] == rest && ba[2..][2..] == rest;
  }

  // --- printing a SELECT ----------------------------------------------------

  /** One blank and one bare word after an open word ends that word. */
  lemma SplitNext(word: string, next: string, rest: string)
    requires next != "" && forall c | c in next :: !IsSyntax(c)
    ensures SplitFrom(Unquoted, word, " " + next + rest) ==
            var more := SplitFrom(Unquoted, next, rest);
            if more.None? then None else Some([word] + more.value)
  {
    var s := " " + next + rest;
    assert s[1..] == next + rest;
    SplitWord(next, rest);
  }

  lemma DigitsAreBare(n: nat)
    ensures Print(n) != "" && forall c | c in Print(n) :: !IsSyntax(c)
  {
  }

  function PagingTokens(offset: nat, limit: Option<nat>): seq<string> {
    (if limit.Some? then ["LIMIT", Print(limit.value)] else [])
    + (if offset > 0 || limit.Some? then ["OFFSET", Print(offset)] else [])
  }

  lemma SplitClause(word: string, keyword: string, n: nat, rest: string)
    requires keyword != "" && forall c | c in keyword :: !IsSyntax(c)
    ensures SplitFrom(Unquoted, word, " " + keyword + " " + Print(n) + rest) ==
            var more := SplitFrom(Unquoted, Print(n), rest);
            if more.None? then None else Some([word, keyword] + more.value)
  {
    var tail := " " + Print(n) + rest;
    assert " " + keyword + " " + Print(n) + rest == " " + keyword + tail;
    SplitNext(word, keyword, tail);
    DigitsAreBare(n);
    SplitNext(keyword, Print(n), rest);
    var more := SplitFrom(Unquoted, Print(n), rest);
    if more.Some? {
      assert [word] + ([keyword] + more.value) == [word, keyword] + more.value;
    }
  }

  lemma SplitOffset(word: string, offset: nat)
    ensures SplitFrom(Unquoted, word, " OFFSET " + Print(offset)) == Some([word, "OFFSET", Print(offset)])
  {
    assert " OFFSET " == " " + "OFFSET" + " ";
    assert " OFFSET " + Print(offset) == " " + "OFFSET" + " " + Print(offset) + "";
    SplitClause(word, "OFFSET", offset, "");
    assert [word, "OFFSET"] + [Print(offset)] == [word, "OFFSET", Print(offset)];
  }

  lemma SplitLimit(limit: nat, offset: nat)
    ensures SplitFrom(Unquoted, "keys", " LIMIT " + Print(limit) + " OFFSET " + Print(offset)) ==
            Some(["keys", "LIMIT", Print(limit), "OFFSET", Print(offset)])
  {
    var l, offsetText := Print(limit), " OFFSET " + Print(offset);
    assert " LIMIT " == " " + "LIMIT" + " ";
    assert " LIMIT " + l + " OFFSET " + Print(offset) == " " + "LIMIT" + " " + l + offsetText;
    SplitOffset(l, offset);
    SplitClause("keys", "LIMIT", limit, offsetText);
    hide Print, SplitFrom;
    assert ["keys", "LIMIT"] + [l, "OFFSET", Print(offset)] == ["keys", "LIMIT", l, "OFFSET", Print(offset)];
  }

  lemma SplitPaging(offset: nat, limit: Option<nat>)
    ensures SplitFrom(Unquoted, "keys", SelectText(offset, limit)[|"SELECT * FROM \"keys\""|..]) ==
            Some(["keys"] + PagingTokens(offset, limit))
  {
    hide Print;
    var head := "SELECT * FROM \"keys\"";
    var tail := SelectText(offset, limit)[|head|..];
    if limit.Some? {
      assert tail == " LIMIT " + Print(limit.value) + " OFFSET " + Print(offset);
      SplitLimit(limit.value, offset);
      assert ["keys"] + PagingTokens(offset, limit) == ["keys", "LIMIT", Print(limit.value), "OFFSET", Print(offset)];
    } else if offset > 0 {
      assert tail == " OFFSET " + Print(offset);
      SplitOffset("keys", offset);
      assert ["keys"] + PagingTokens(offset, limit) == ["keys", "OFFSET", Print(offset)];
    } else {
      assert tail == "" && ["keys"] + PagingTokens(offset, limit) == ["keys"];
    }
  }

  lemma SplitTable(word: string, rest: string)
    ensures SplitFrom(Unquoted, word, " " + ("\"keys\"" + rest)) ==
            var more := SplitFrom(Unquoted, "keys", rest);
            if more.None? then None else Some([word] + more.value)
  {
    var quoted := "\"keys\"" + rest;
    assert (" " + quoted)[1..] == quoted && quoted[1..] == "keys" + "\"" + rest;
    SplitDoubleQuoted("", "keys", rest);
    assert "" + "keys" == "keys";
  }

  lemma SplitSelectHead(rest: string)
    ensures Split("SELECT * FROM \"keys\"" + rest) ==
            var more := SplitFrom(Unquoted, "keys", rest);
            if more.None? then None else Some(["SELECT", "*", "FROM"] + more.value)
  {
    var afterFrom := " " + ("\"keys\"" + rest);
    var afterStar := " " + "FROM" + afterFrom;
    var afterSelect := " " + "*" + afterStar;
    assert "SELECT * FROM \"keys\"" + rest == "SELECT" + afterSelect;
    SplitWord("SELECT", afterSelect);
    SplitNext("SELECT", "*", afterStar);
    SplitNext("*", "FROM", afterFrom);
    SplitTable("FROM", rest);
    var more := SplitFrom(Unquoted, "keys", rest);
    if more.Some? {
      assert ["SELECT"] + (["*"] + (["FROM"] + more.value)) == ["SELECT", "*", "FROM"] + more.value;
    }
  }

  lemma SelectTextTokens(offset: nat, limit: Option<nat>)
    ensures Split(SelectText(offset, limit)) == Some(["SELECT", "*", "FROM", "keys"] + PagingTokens(offset, limit))
  {
    var head := "SELECT * FROM \"keys\"";
    var text := SelectText(offset, limit);
    assert text[..|head|] == head && text == head + text[|head|..];
    SplitSelectHead(text[|head|..]);
    SplitPaging(offset, limit);
    assert ["SELECT", "*", "FROM"] + (["keys"] + PagingTokens(offset, limit))
        == ["SELECT", "*", "FROM", "keys"] + PagingTokens(offset, limit);
  }

  function SelectTokens(offset: nat, limit: Option<nat>): seq<string> {
    ["SELECT", "*", "FROM", "keys"] + PagingTokens(offset, limit)
  }

  lemma PagingTokensRead(offset: nat, limit: Option<nat>)
    requires offset <= USIZE_MAX && (limit.Some? ==> limit.value <= USIZE_MAX)
    ensures IsPaging(PagingTokens(offset, limit), offset, limit)
  {
    hide Print, ParseUsize;
    ParsePrint(offset);
    if limit.Some? {
      ParsePrint(limit.value);
      assert PagingTokens(offset, limit)[..2] == ["LIMIT", Print(limit.value)];
      assert PagingTokens(offset, limit)[2..] == ["OFFSET", Print(offset)];
    }
  }

  lemma SelectTokensRead(offset: nat, limit: Option<nat>)
    requires offset <= USIZE_MAX && (limit.Some? ==> limit.value <= USIZE_MAX)
    ensures Select(SelectTokens(offset, limit)) == Ok(SelectKeys(offset, limit))
  {
    var tokens := SelectTokens(offset, limit);
    assert HasHeader(tokens) && tokens[4..] == PagingTokens(offset, limit);
    PagingTokensRead(offset, limit);
    BodyHasNoSemicolon(tokens, offset, limit);
    SelectGrammar(tokens, offset, limit);
    hide Select, Print, IsPaging, HasHeader;
  }

  /** The statement reported for a browse parses back to that browse, for every machine offset and limit. */
  lemma SelectRoundTrip(offset: nat, limit: Option<nat>)
    requires offset <= USIZE_MAX && (limit.Some? ==> limit.value <= USIZE_MAX)
    ensures ParseStatement(SelectText(offset, limit)) == Ok(SelectKeys(offset, limit))
  {
    SelectTextTokens(offset, limit);
    SelectTokensRead(offset, limit);
    var text := SelectText(offset, limit);
    assert text[0] in text && !IsWhite(text[0]);
    hide Select, Split, SelectText, PagingTokens;
  }

  /** An accepted SELECT carries machine numbers. */
  lemma AcceptedFits(tokens: seq<string>, offset: nat, limit: Option<nat>)
    requires Select(tokens) == Ok(SelectKeys(offset, limit))
    ensures offset <= USIZE_MAX && (limit.Some? ==> limit.value <= USIZE_MAX)
  {
    SelectGrammar(tokens, offset, limit);
    hide Select, HasHeader, SameIgnoringCase, ParseDigits;
  }

  /** Whatever accepted SELECT is printed again, parsing the print gives the same SELECT. */
  lemma SelectReprintStable(statement: string, offset: nat, limit: Option<nat>)
    requires ParseStatement(statement) == Ok(SelectKeys(offset, limit))
    ensures ParseStatement(SelectText(offset, limit)) == Ok(SelectKeys(offset, limit))
  {
    hide Select, SelectText, Split;
    AcceptedFits(Split(statement).value, offset, limit);
    SelectRoundTrip(offset, limit);
  }
}
