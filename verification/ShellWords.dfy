/**
 The shell word splitter and quoter that the command line is built on: the
 `shell-words` crate named in Cargo.toml, whose rules are those of sections 2.2
 (quoting) and 2.3 (comments) of the Shell Command Language of POSIX.1-2017.
 */
module ShellWords {
  import opened Wrappers

  datatype State =
    | Delimiter
    | Backslash
    | Unquoted
    | UnquotedBackslash
    | SingleQuoted
    | DoubleQuoted
    | DoubleQuotedBackslash
    | Comment

  predicate IsBlank(c: char) {
    c == ' ' || c == '\t' || c == '\n'
  }

  /** What one character does: the next state, the word so far, and whether a word ends here. */
  datatype Move = Move(state: State, word: string, ends: bool)

  function Read(state: State, word: string, c: char): Move {
    match state
    case Delimiter =>
      if c == '\'' then Move(SingleQuoted, word, false)
      else if c == '"' then Move(DoubleQuoted, word, false)
      else if c == '\\' then Move(Backslash, word, false)
      else if IsBlank(c) then Move(Delimiter, word, false)
      else if c == '#' then Move(Comment, word, false)
      else Move(Unquoted, word + [c], false)
    case Backslash =>
      if c == '\n' then Move(Delimiter, word, false) else Move(Unquoted, word + [c], false)
    case Unquoted =>
      if c == '\'' then Move(SingleQuoted, word, false)
      else if c == '"' then Move(DoubleQuoted, word, false)
      else if c == '\\' then Move(UnquotedBackslash, word, false)
      else if IsBlank(c) then Move(Delimiter, word, true)
      else Move(Unquoted, word + [c], false)
    case UnquotedBackslash =>
      if c == '\n' then Move(Unquoted, word, false) else Move(Unquoted, word + [c], false)
    case SingleQuoted =>
      if c == '\'' then Move(Unquoted, word, false) else Move(SingleQuoted, word + [c], false)
    case DoubleQuoted =>
      if c == '"' then Move(Unquoted, word, false)
      else if c == '\\' then Move(DoubleQuotedBackslash, word, false)
      else Move(DoubleQuoted, word + [c], false)
    case DoubleQuotedBackslash =>
      if c == '\n' then Move(DoubleQuoted, word, false)
      else if c == '$' || c == '`' || c == '"' || c == '\\' then Move(DoubleQuoted, word + [c], false)
      else Move(DoubleQuoted, word + ['\\', c], false)
    case Comment =>
      if c == '\n' then Move(Delimiter, word, false) else Move(Comment, word, false)
  }

  /** The words still to come; None when the input ends inside quotes. */
  function SplitFrom(state: State, word: string, s: string): Option<seq<string>>
    decreases |s|
  {
    if s == "" then
      match state
      case Delimiter | Comment => Some([])
      case Unquoted => Some([word])
      case Backslash | UnquotedBackslash => Some([word + "\\"])
      case SingleQuoted | DoubleQuoted | DoubleQuotedBackslash => None
    else
      var move := Read(state, word, s[0]);
      if move.ends then
        var rest := SplitFrom(move.state, "", s[1..]);
        if rest.None? then None else Some([move.word] + rest.value)
      else SplitFrom(move.state, move.word, s[1..])
  }

  function Split(s: string): Option<seq<string>> {
    SplitFrom(Delimiter, "", s)
  }

  /** The characters with a meaning to the splitter. */
  predicate IsSyntax(c: char) {
    IsBlank(c) || c == '\'' || c == '"' || c == '\\' || c == '#'
  }

  /** The characters that make the quoter put a word in quotes. */
  predicate IsSpecial(c: char) {
    IsSyntax(c) || c in "|&;<>()$`*?[~=%"
  }

  predicate NeedsQuotes(word: string) {
    word == "" || exists c | c in word :: IsSpecial(c)
  }

  /** The body of a single-quoted word: `'` is closed, escaped and reopened. */
  function Escape(word: string): string {
    if word == "" then ""
    else (if word[0] == '\'' then "'\\''" else [word[0]]) + Escape(word[1..])
  }

  function Quote(word: string): string {
    if NeedsQuotes(word) then "'" + Escape(word) + "'" else word
  }

  /** Words separated by single spaces. */
  function Join(words: seq<string>): string {
    if words == [] then ""
    else if |words| == 1 then words[0]
    else words[0] + " " + Join(words[1..])
  }

  function QuoteAll(words: seq<string>): (r: seq<string>)
    ensures |r| == |words| && forall i | 0 <= i < |words| :: r[i] == Quote(words[i])
  {
    if words == [] then [] else [Quote(words[0])] + QuoteAll(words[1..])
  }

  lemma {:induction false} SplitBare(word: string, more: string, rest: string)
    requires forall c | c in more :: !IsSyntax(c)
    ensures SplitFrom(Unquoted, word, more + rest) == SplitFrom(Unquoted, word + more, rest)
    decreases |more|
  {
    if more == "" {
      assert more + rest == rest && word + more == word;
    } else {
      assert !IsSyntax(more[0]);
      assert (more + rest)[1..] == more[1..] + rest;
      SplitBare(word + [more[0]], more[1..], rest);
      assert word + [more[0]] + more[1..] == word + more;
    }
  }

  lemma {:induction false} SplitEscaped(word: string, more: string, rest: string)
    ensures SplitFrom(SingleQuoted, word, Escape(more) + "'" + rest) == SplitFrom(Unquoted, word + more, rest)
    decreases |more|
  {
    if more == "" {
      assert word + more == word;
      assert ("'" + rest)[1..] == rest && Escape(more) + "'" + rest == "'" + rest;
    } else {
      var tail := Escape(more[1..]) + "'" + rest;
      if more[0] == '\'' {
        assert Escape(more) + "'" + rest == "'\\''" + tail;
        SplitQuoteMark(word, tail);
      } else {
        assert Escape(more) + "'" + rest == [more[0]] + tail;
        assert ([more[0]] + tail)[1..] == tail;
      }
      SplitEscaped(word + [more[0]], more[1..], rest);
      assert word + [more[0]] + more[1..] == word + more;
    }
  }

  lemma SplitQuoteMark(word: string, tail: string)
    ensures SplitFrom(SingleQuoted, word, "'\\''" + tail) == SplitFrom(SingleQuoted, word + "'", tail)
  {
    var s := "'\\''" + tail;
    assert s[1..] == "\\''" + tail && s[2..] == "''" + tail && s[3..] == "'" + tail && s[4..] == tail;
    assert s[1..][1..] == s[2..] && s[2..][1..] == s[3..] && s[3..][1..] == s[4..];
    calc {
      SplitFrom(SingleQuoted, word, s);
      SplitFrom(Unquoted, word, s[1..]);
      SplitFrom(UnquotedBackslash, word, s[2..]);
      SplitFrom(Unquoted, word + "'", s[3..]);
      SplitFrom(SingleQuoted, word + "'", s[4..]);
    }
  }

  lemma {:induction false} SplitDoubleQuoted(word: string, more: string, rest: string)
    requires forall c | c in more :: !IsSyntax(c)
    ensures SplitFrom(DoubleQuoted, word, more + "\"" + rest) == SplitFrom(Unquoted, word + more, rest)
    decreases |more|
  {
    var s := more + "\"" + rest;
    if more == "" {
      assert word + more == word && s[1..] == rest;
    } else {
      assert !IsSyntax(more[0]) && s[1..] == more[1..] + "\"" + rest;
      SplitDoubleQuoted(word + [more[0]], more[1..], rest);
      assert word + [more[0]] + more[1..] == word + more;
    }
  }

  /** A bare word read at a delimiter is that word, still open at its end. */
  lemma SplitWord(word: string, rest: string)
    requires word != "" && forall c | c in word :: !IsSyntax(c)
    ensures SplitFrom(Delimiter, "", word + rest) == SplitFrom(Unquoted, word, rest)
  {
    assert word[0] in word && (word + rest)[0] == word[0];
    assert "" + [word[0]] == [word[0]] && (word + rest)[1..] == word[1..] + rest;
    SplitBare([word[0]], word[1..], rest);
    assert [word[0]] + word[1..] == word;
  }

  /** A quoted word read at a delimiter is that word, still open at its end. */
  lemma SplitQuoted(word: string, rest: string)
    ensures SplitFrom(Delimiter, "", Quote(word) + rest) == SplitFrom(Unquoted, word, rest)
  {
    if NeedsQuotes(word) {
      var s := Quote(word) + rest;
      assert s[0] == '\'' && s[1..] == Escape(word) + "'" + rest;
      SplitEscaped("", word, rest);
      assert "" + word == word;
    } else {
      forall c | c in word ensures !IsSyntax(c) {
        assert !IsSpecial(c);
      }
      SplitWord(word, rest);
    }
  }

  /** Splitting a line of quoted words gives back exactly those words. */
  lemma {:induction false} SplitJoin(words: seq<string>)
    ensures Split(Join(QuoteAll(words))) == Some(words)
  {
    if words == [] {
      assert QuoteAll(words) == [];
    } else if |words| == 1 {
      assert QuoteAll(words) == [Quote(words[0])];
      SplitQuoted(words[0], "");
      assert Quote(words[0]) + "" == Quote(words[0]) && words == [words[0]];
    } else {
      var rest := Join(QuoteAll(words[1..]));
      assert QuoteAll(words)[1..] == QuoteAll(words[1..]);
      assert Join(QuoteAll(words)) == Quote(words[0]) + (" " + rest);
      SplitQuoted(words[0], " " + rest);
      assert (" " + rest)[1..] == rest;
      SplitJoin(words[1..]);
      assert [words[0]] + words[1..] == words;
    }
  }
}
