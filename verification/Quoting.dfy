/**
 Every way to write a word: bare, in single quotes, in double quotes with
 backslashes, by backslashes alone, and any of these glued together; between
 words any blanks and comments. The splitter reads each line so written as the
 words meant, and takes a line with an open quote for an error.
 */
module Quoting {
  import opened ShellWords
  import opened Wrappers

  /** A stretch of one word in one style. `Fold` is a line broken inside a word. */
  datatype Piece =
    | Bare(text: string)
    | Single(text: string)
    | Double(text: string)
    | Slash(c: char)
    | Fold

  /** The characters that a backslash keeps inside double quotes. */
  predicate IsKept(c: char) {
    c == '$' || c == '`' || c == '"' || c == '\\'
  }

  predicate IsWritable(piece: Piece) {
    match piece
    case Bare(text) => text != "" && forall c | c in text :: !IsSyntax(c)
    case Single(text) => '\'' !in text
    case Double(_) => true
    case Slash(c) => c != '\n'
    case Fold => true
  }

  function Meaning(piece: Piece): string {
    match piece
    case Bare(text) => text
    case Single(text) => text
    case Double(text) => text
    case Slash(c) => [c]
    case Fold => ""
  }

  function DoubleBody(text: string): string {
    if text == "" then ""
    else (if IsKept(text[0]) then ['\\', text[0]] else [text[0]]) + DoubleBody(text[1..])
  }

  function Written(piece: Piece): string {
    match piece
    case Bare(text) => text
    case Single(text) => "'" + text + "'"
    case Double(text) => "\"" + DoubleBody(text) + "\""
    case Slash(c) => ['\\', c]
    case Fold => "\\\n"
  }

  function MeaningOf(word: seq<Piece>): string {
    if word == [] then "" else Meaning(word[0]) + MeaningOf(word[1..])
  }

  function WrittenOf(word: seq<Piece>): string {
    if word == [] then "" else Written(word[0]) + WrittenOf(word[1..])
  }

  /** A word has a piece that starts it. */
  predicate IsWord(word: seq<Piece>) {
    word != [] && !word[0].Fold? && forall piece | piece in word :: IsWritable(piece)
  }

  lemma {:induction false} SingleRead(word: string, text: string, rest: string)
    requires '\'' !in text
    ensures SplitFrom(SingleQuoted, word, text + "'" + rest) == SplitFrom(Unquoted, word + text, rest)
    decreases |text|
  {
    var s := text + "'" + rest;
    if text == "" {
      assert word + text == word && s[1..] == rest;
    } else {
      assert s[1..] == text[1..] + "'" + rest && word + [text[0]] + text[1..] == word + text;
      SingleRead(word + [text[0]], text[1..], rest);
    }
  }

  lemma {:induction false} DoubleRead(word: string, text: string, rest: string)
    ensures SplitFrom(DoubleQuoted, word, DoubleBody(text) + "\"" + rest) == SplitFrom(Unquoted, word + text, rest)
    decreases |text|
  {
    var s := DoubleBody(text) + "\"" + rest;
    if text == "" {
      assert word + text == word && s[1..] == rest;
    } else {
      var tail := DoubleBody(text[1..]) + "\"" + rest;
      assert word + [text[0]] + text[1..] == word + text;
      DoubleRead(word + [text[0]], text[1..], rest);
      if IsKept(text[0]) {
        assert s[0] == '\\' && s[1..][0] == text[0] && s[1..][1..] == tail;
      } else {
        assert s[0] == text[0] && s[1..] == tail;
      }
    }
  }

  lemma QuotedRead(state: State, word: string, text: string, rest: string)
    requires state == Unquoted || (state == Delimiter && word == "")
    ensures '\'' !in text ==> SplitFrom(state, word, "'" + text + "'" + rest) == SplitFrom(Unquoted, word + text, rest)
    ensures SplitFrom(state, word, "\"" + DoubleBody(text) + "\"" + rest) == SplitFrom(Unquoted, word + text, rest)
  {
    var single, double := text + "'" + rest, DoubleBody(text) + "\"" + rest;
    assert "'" + text + "'" + rest == ['\''] + single && (['\''] + single)[1..] == single;
    assert "\"" + DoubleBody(text) + "\"" + rest == ['"'] + double && (['"'] + double)[1..] == double;
    if '\'' !in text {
      SingleRead(word, text, rest);
    }
    DoubleRead(word, text, rest);
    hide DoubleBody;
  }

  lemma SlashRead(state: State, word: string, c: char, rest: string)
    requires state == Unquoted || (state == Delimiter && word == "")
    ensures c != '\n' ==> SplitFrom(state, word, ['\\', c] + rest) == SplitFrom(Unquoted, word + [c], rest)
    ensures c == '\n' ==> SplitFrom(state, word, ['\\', c] + rest) == SplitFrom(state, word, rest)
  {
    var s := ['\\', c] + rest;
    assert s[0] == '\\' && s[1..] == [c] + rest && s[1..][1..] == rest;
  }

  /** One more piece of an open word. */
  lemma PieceRead(word: string, piece: Piece, rest: string)
    requires IsWritable(piece)
    ensures SplitFrom(Unquoted, word, Written(piece) + rest) == SplitFrom(Unquoted, word + Meaning(piece), rest)
  {
    hide SplitFrom, DoubleBody;
    match piece
    case Bare(text) => SplitBare(word, text, rest);
    case Single(text) => QuotedRead(Unquoted, word, text, rest);
    case Double(text) => QuotedRead(Unquoted, word, text, rest);
    case Slash(c) => SlashRead(Unquoted, word, c, rest);
    case Fold =>
      SlashRead(Unquoted, word, '\n', rest);
      assert "\\\n" == ['\\', '\n'] && word + "" == word;
  }

  /** The piece that starts a word. */
  lemma FirstPieceRead(piece: Piece, rest: string)
    requires IsWritable(piece) && !piece.Fold?
    ensures SplitFrom(Delimiter, "", Written(piece) + rest) == SplitFrom(Unquoted, Meaning(piece), rest)
  {
    hide SplitFrom, DoubleBody;
    var text := Meaning(piece);
    assert "" + text == text;
    match piece
    case Bare(_) => SplitWord(text, rest);
    case Single(_) => QuotedRead(Delimiter, "", text, rest);
    case Double(_) => QuotedRead(Delimiter, "", text, rest);
    case Slash(c) => SlashRead(Delimiter, "", c, rest);
  }

  lemma {:induction false} PiecesRead(word: string, pieces: seq<Piece>, rest: string)
    requires forall piece | piece in pieces :: IsWritable(piece)
    ensures SplitFrom(Unquoted, word, WrittenOf(pieces) + rest) == SplitFrom(Unquoted, word + MeaningOf(pieces), rest)
    decreases |pieces|
  {
    if pieces == [] {
      assert WrittenOf(pieces) + rest == rest && word + MeaningOf(pieces) == word;
    } else {
      var tail := WrittenOf(pieces[1..]) + rest;
      assert WrittenOf(pieces) + rest == Written(pieces[0]) + tail;
      PieceRead(word, pieces[0], tail);
      PiecesRead(word + Meaning(pieces[0]), pieces[1..], rest);
      assert word + Meaning(pieces[0]) + MeaningOf(pieces[1..]) == word + MeaningOf(pieces);
    }
  }

  lemma WordRead(word: seq<Piece>, rest: string)
    requires IsWord(word)
    ensures SplitFrom(Delimiter, "", WrittenOf(word) + rest) == SplitFrom(Unquoted, MeaningOf(word), rest)
  {
    var tail := WrittenOf(word[1..]) + rest;
    assert WrittenOf(word) + rest == Written(word[0]) + tail;
    FirstPieceRead(word[0], tail);
    PiecesRead(Meaning(word[0]), word[1..], rest);
  }

  // --- the quoter's own style -----------------------------------------------------------------

  /** The quoter leaves a word bare when no character of it means anything to a shell, and else puts it in `'`. */
  lemma QuoteIs(word: string)
    ensures Quote(word) == word <==> word != "" && forall c | c in word :: c !in " \t\n'\"\\#|&;<>()$`*?[~=%"
    ensures Quote(word) != word ==>
              |Quote(word)| >= 2 && Quote(word)[0] == '\'' && Quote(word)[|Quote(word)| - 1] == '\''
    ensures Quote(word) != word && '\'' !in word ==> Quote(word) == "'" + word + "'"
  {
    EscapeLength(word);
    var special := " \t\n'\"\\#|&;<>()$`*?[~=%";
    forall c: char ensures IsSpecial(c) <==> c in special {
      SpecialIs(c);
    }
  }

  lemma SpecialIs(c: char)
    ensures IsSpecial(c) <==> c in " \t\n'\"\\#|&;<>()$`*?[~=%"
  {
    assert " \t\n'\"\\#|&;<>()$`*?[~=%" == " \t\n'\"\\#" + "|&;<>()$`*?[~=%";
  }

  lemma {:induction false} EscapeLength(word: string)
    ensures |Escape(word)| >= |word|
    ensures '\'' !in word ==> Escape(word) == word
  {
    if word != "" {
      EscapeLength(word[1..]);
    }
  }

  // --- between words ------------------------------------------------------------------------

  /** A blank, or a comment to the end of its line. */
  datatype Gap = Blank(c: char) | Remark(text: string)

  predicate IsGap(gap: Gap) {
    if gap.Blank? then gap.c == ' ' || gap.c == '\t' || gap.c == '\n' else '\n' !in gap.text
  }

  function GapText(gap: Gap): string {
    if gap.Blank? then [gap.c] else "#" + gap.text + "\n"
  }

  function GapsText(gaps: seq<Gap>): string {
    if gaps == [] then "" else GapText(gaps[0]) + GapsText(gaps[1..])
  }

  lemma {:induction false} RemarkRead(text: string, rest: string)
    requires '\n' !in text
    ensures SplitFrom(Comment, "", text + "\n" + rest) == SplitFrom(Delimiter, "", rest)
    decreases |text|
  {
    var s := text + "\n" + rest;
    if text == "" {
      assert s[1..] == rest;
    } else {
      assert s[1..] == text[1..] + "\n" + rest;
      RemarkRead(text[1..], rest);
    }
  }

  lemma GapRead(gap: Gap, rest: string)
    requires IsGap(gap)
    ensures SplitFrom(Delimiter, "", GapText(gap) + rest) == SplitFrom(Delimiter, "", rest)
  {
    var s := GapText(gap) + rest;
    match gap
    case Blank(c) => assert s[0] == c && s[1..] == rest;
    case Remark(text) =>
      assert s[0] == '#' && s[1..] == text + "\n" + rest;
      RemarkRead(text, rest);
  }

  lemma {:induction false} GapsRead(gaps: seq<Gap>, rest: string)
    requires forall gap | gap in gaps :: IsGap(gap)
    ensures SplitFrom(Delimiter, "", GapsText(gaps) + rest) == SplitFrom(Delimiter, "", rest)
    decreases |gaps|
  {
    hide SplitFrom, GapText;
    if gaps == [] {
      assert GapsText(gaps) + rest == rest;
    } else {
      var tail := GapsText(gaps[1..]) + rest;
      assert GapsText(gaps) + rest == GapText(gaps[0]) + tail;
      GapRead(gaps[0], tail);
      GapsRead(gaps[1..], rest);
    }
  }

  // --- lines ------------------------------------------------------------------------------------

  /** A word and what follows it: a blank first, unless it is the last. */
  datatype Item = Item(word: seq<Piece>, after: seq<Gap>)

  predicate IsItem(item: Item) {
    IsWord(item.word) && forall gap | gap in item.after :: IsGap(gap)
  }

  predicate IsLine(items: seq<Item>) {
    && (forall item | item in items :: IsItem(item))
    && (forall i | 0 <= i < |items| - 1 :: items[i].after != [])
    && (forall i | 0 <= i < |items| && items[i].after != [] :: items[i].after[0].Blank?)
  }

  function LineText(items: seq<Item>): string {
    if items == [] then "" else WrittenOf(items[0].word) + (GapsText(items[0].after) + LineText(items[1..]))
  }

  function Words(items: seq<Item>): seq<string> {
    if items == [] then [] else [MeaningOf(items[0].word)] + Words(items[1..])
  }

  /** A blank ends the open word. */
  lemma BlankEnds(word: string, c: char, rest: string)
    requires c == ' ' || c == '\t' || c == '\n'
    ensures
      SplitFrom(Unquoted, word, [c] + rest) ==
      var more := SplitFrom(Delimiter, "", rest);
      if more.None? then None else Some([word] + more.value)
  {
    assert ([c] + rest)[1..] == rest;
  }

  /** One word with a blank after it. */
  lemma ItemRead(item: Item, rest: string)
    requires IsItem(item) && item.after != [] && item.after[0].Blank?
    ensures
      SplitFrom(Delimiter, "", WrittenOf(item.word) + (GapsText(item.after) + rest)) ==
      var more := SplitFrom(Delimiter, "", rest);
      if more.None? then None else Some([MeaningOf(item.word)] + more.value)
  {
    hide SplitFrom, WrittenOf, MeaningOf;
    var more := GapsText(item.after[1..]) + rest;
    assert item.after[0] in item.after;
    assert GapsText(item.after) + rest == [item.after[0].c] + more;
    WordRead(item.word, [item.after[0].c] + more);
    BlankEnds(MeaningOf(item.word), item.after[0].c, more);
    GapsRead(item.after[1..], rest);
  }

  lemma LastRead(word: seq<Piece>)
    requires IsWord(word)
    ensures SplitFrom(Delimiter, "", WrittenOf(word)) == Some([MeaningOf(word)])
  {
    WordRead(word, "");
    assert WrittenOf(word) + "" == WrittenOf(word);
    hide WrittenOf, MeaningOf;
  }

  lemma {:induction false} LineRead(items: seq<Item>)
    requires IsLine(items)
    ensures Split(LineText(items)) == Some(Words(items))
    decreases |items|
  {
    hide SplitFrom, MeaningOf, WrittenOf;
    if items == [] {
      NothingRead();
    } else {
      var item, others := items[0], items[1..];
      assert item in items;
      OthersAreLine(items);
      LineRead(others);
      if item.after == [] {
        LastRead(item.word);
        assert WrittenOf(item.word) + ("" + "") == WrittenOf(item.word);
        assert [MeaningOf(item.word)] + [] == [MeaningOf(item.word)];
      } else {
        ItemRead(item, LineText(others));
      }
    }
  }

  lemma NothingRead()
    ensures Split("") == Some([])
  {
  }

  lemma OthersAreLine(items: seq<Item>)
    requires IsLine(items) && items != []
    ensures IsLine(items[1..]) && (items[0].after == [] ==> items[1..] == [])
  {
    assert forall i | 0 <= i < |items| - 1 :: items[1..][i] == items[i + 1];
  }

  /** Whatever the styles, blanks and comments, a line is read as the words it means. */
  lemma AnyQuoting(before: seq<Gap>, items: seq<Item>)
    requires IsLine(items) && forall gap | gap in before :: IsGap(gap)
    ensures Split(GapsText(before) + LineText(items)) == Some(Words(items))
  {
    GapsRead(before, LineText(items));
    LineRead(items);
  }

  // --- lines that end too soon ------------------------------------------------------------------

  lemma {:induction false} SingleOpen(word: string, text: string)
    requires '\'' !in text
    ensures SplitFrom(SingleQuoted, word, text) == None
    decreases |text|
  {
    if text != "" {
      SingleOpen(word + [text[0]], text[1..]);
    }
  }

  lemma {:induction false} DoubleOpen(word: string, text: string)
    ensures SplitFrom(DoubleQuoted, word, DoubleBody(text)) == None
    decreases |text|
  {
    if text != "" {
      var s := DoubleBody(text);
      DoubleOpen(word + [text[0]], text[1..]);
      if IsKept(text[0]) {
        assert s[0] == '\\' && s[1..][0] == text[0] && s[1..][1..] == DoubleBody(text[1..]);
      } else {
        assert s[0] == text[0] && s[1..] == DoubleBody(text[1..]);
      }
    }
  }

  /** A word that opens a quote and never closes it makes the line an error. */
  lemma OpenQuote(word: seq<Piece>, text: string)
    requires IsWord(word)
    ensures '\'' !in text ==> Split(WrittenOf(word) + ("'" + text)) == None
    ensures Split(WrittenOf(word) + ("\"" + DoubleBody(text))) == None
  {
    WordRead(word, "'" + text);
    WordRead(word, "\"" + DoubleBody(text));
    assert ("'" + text)[1..] == text && ("\"" + DoubleBody(text))[1..] == DoubleBody(text);
    if '\'' !in text {
      SingleOpen(MeaningOf(word), text);
    }
    DoubleOpen(MeaningOf(word), text);
  }

  /** A backslash at the very end stands for itself; a comment needs no line break there. */
  lemma LineEnds(word: seq<Piece>, text: string)
    requires IsWord(word) && '\n' !in text
    ensures Split(WrittenOf(word) + "\\") == Some([MeaningOf(word) + "\\"])
    ensures Split(WrittenOf(word) + (" #" + text)) == Some([MeaningOf(word)])
  {
    WordRead(word, "\\");
    WordRead(word, " #" + text);
    RemarkEnds(text);
    assert "\\"[1..] == "" && ("#" + text)[1..] == text;
    BlankEnds(MeaningOf(word), ' ', "#" + text);
    assert " #" + text == [' '] + ("#" + text);
    assert [MeaningOf(word)] + [] == [MeaningOf(word)];
    assert SplitFrom(Delimiter, "", "#" + text) == SplitFrom(Comment, "", text) == Some([]);
  }

  lemma {:induction false} RemarkEnds(text: string)
    requires '\n' !in text
    ensures SplitFrom(Comment, "", text) == Some([])
    decreases |text|
  {
    if text != "" {
      RemarkEnds(text[1..]);
    }
  }

  /** In double quotes a backslash before any other character stays; a broken line is joined there and between words. */
  lemma PlainBackslash(word: string, c: char, rest: string)
    ensures SplitFrom(DoubleQuoted, word, "\\" + [c] + rest) ==
            var more := if c == '\n' then word else if IsKept(c) then word + [c] else word + "\\" + [c];
            SplitFrom(DoubleQuoted, more, rest)
    ensures SplitFrom(Delimiter, "", "\\\n" + rest) == SplitFrom(Delimiter, "", rest)
  {
    var s, t := "\\" + [c] + rest, "\\\n" + rest;
    assert s[1..][0] == c && s[1..][1..] == rest && t[1..][0] == '\n' && t[1..][1..] == rest;
    assert word + ['\\', c] == word + "\\" + [c];
  }

  /** Inside a word `#` is a character like any other. */
  lemma HashInWord(word: seq<Piece>, rest: string)
    requires IsWord(word)
    ensures SplitFrom(Delimiter, "", WrittenOf(word) + ("#" + rest)) ==
            SplitFrom(Unquoted, MeaningOf(word) + "#", rest)
  {
    WordRead(word, "#" + rest);
    assert ("#" + rest)[1..] == rest;
  }
}
