/** The word splitter of the `shell-words` crate, which the tracker uses to
    tokenise a stored entry line. The crate is a dependency, not repository
    code; this module follows its published state machine: blanks are space,
    tab and newline; single quotes take everything literally; inside double
    quotes a backslash escapes only `$`, backquote, `"`, `\` and a newline;
    `#` at the start of a word opens a comment that runs to the newline. */
module ShellWords {
  import opened Wrappers

  datatype State =
    | Delimiter
    | Backslash
    | Unquoted
    | UnquotedBackslash
    | SingleQuoted
    | DoubleQuoted
    | DoubleQuotedBackslash
    | Comment

  /** The crate's only error; its message is "missing closing quote". */
  datatype SplitError = MissingClosingQuote

  const MissingClosingQuoteMessage := "missing closing quote"

  predicate IsBlank(c: char) {
    c == ' ' || c == '\t' || c == '\n'
  }

  predicate IsQuoted(st: State) {
    st == SingleQuoted || st == DoubleQuoted || st == DoubleQuotedBackslash
  }

  /** Consumes `rest` from state `st`, with `word` the word being built and
      `words` the words already finished. */
  function Run(rest: string, st: State, word: string, words: seq<string>): Result<seq<string>, SplitError>
    decreases |rest|
  {
    if |rest| == 0 then
      match st
      case Delimiter => Success(words)
      case Comment => Success(words)
      case Backslash => Success(words + [word + "\\"])
      case UnquotedBackslash => Success(words + [word + "\\"])
      case Unquoted => Success(words + [word])
      case SingleQuoted => Failure(MissingClosingQuote)
      case DoubleQuoted => Failure(MissingClosingQuote)
      case DoubleQuotedBackslash => Failure(MissingClosingQuote)
    else
      var c, tail := rest[0], rest[1..];
      match st
      case Delimiter =>
        if c == '\'' then Run(tail, SingleQuoted, word, words)
        else if c == '"' then Run(tail, DoubleQuoted, word, words)
        else if c == '\\' then Run(tail, Backslash, word, words)
        else if IsBlank(c) then Run(tail, Delimiter, word, words)
        else if c == '#' then Run(tail, Comment, word, words)
        else Run(tail, Unquoted, word + [c], words)
      case Backslash =>
        if c == '\n' then Run(tail, Delimiter, word, words)
        else Run(tail, Unquoted, word + [c], words)
      case Unquoted =>
        if c == '\'' then Run(tail, SingleQuoted, word, words)
        else if c == '"' then Run(tail, DoubleQuoted, word, words)
        else if c == '\\' then Run(tail, UnquotedBackslash, word, words)
        else if IsBlank(c) then Run(tail, Delimiter, "", words + [word])
        else Run(tail, Unquoted, word + [c], words)
      case UnquotedBackslash =>
        if c == '\n' then Run(tail, Unquoted, word, words)
        else Run(tail, Unquoted, word + [c], words)
      case SingleQuoted =>
        if c == '\'' then Run(tail, Unquoted, word, words)
        else Run(tail, SingleQuoted, word + [c], words)
      case DoubleQuoted =>
        if c == '"' then Run(tail, Unquoted, word, words)
        else if c == '\\' then Run(tail, DoubleQuotedBackslash, word, words)
        else Run(tail, DoubleQuoted, word + [c], words)
      case DoubleQuotedBackslash =>
        if c == '\n' then Run(tail, DoubleQuoted, word, words)
        else if c == '$' || c == '`' || c == '"' || c == '\\' then Run(tail, DoubleQuoted, word + [c], words)
        else Run(tail, DoubleQuoted, word + ['\\', c], words)
      case Comment =>
        if c == '\n' then Run(tail, Delimiter, word, words)
        else Run(tail, Comment, word, words)
  }

  /** `shell_words::split`. */
  function Split(s: string): Result<seq<string>, SplitError> {
    Run(s, Delimiter, "", [])
  }

  /** A character that stands for itself in an unquoted word. */
  predicate IsPlain(c: char) {
    !IsBlank(c) && c != '\'' && c != '"' && c != '\\'
  }

  /** A field written bare (unquoted) that splits back to itself. */
  predicate IsBareField(w: string) {
    && |w| > 0
    && w[0] != '#'
    && forall i :: 0 <= i < |w| ==> IsPlain(w[i])
  }

  /** A character that stands for itself between double quotes. */
  predicate IsQuotable(c: char) {
    c != '"' && c != '\\'
  }

  lemma {:induction false} UnquotedRun(w: string, rest: string, word: string, words: seq<string>)
    requires forall i :: 0 <= i < |w| ==> IsPlain(w[i])
    ensures Run(w + rest, Unquoted, word, words) == Run(rest, Unquoted, word + w, words)
  {
    if |w| == 0 {
      assert w + rest == rest;
      assert word + w == word;
    } else {
      assert (w + rest)[0] == w[0];
      assert (w + rest)[1..] == w[1..] + rest;
      UnquotedRun(w[1..], rest, word + [w[0]], words);
      assert word + [w[0]] + w[1..] == word + w;
    }
  }

  lemma {:induction false} DoubleQuotedRun(w: string, rest: string, word: string, words: seq<string>)
    requires forall i :: 0 <= i < |w| ==> IsQuotable(w[i])
    ensures Run(w + rest, DoubleQuoted, word, words) == Run(rest, DoubleQuoted, word + w, words)
  {
    if |w| == 0 {
      assert w + rest == rest;
      assert word + w == word;
    } else {
      assert (w + rest)[0] == w[0];
      assert (w + rest)[1..] == w[1..] + rest;
      DoubleQuotedRun(w[1..], rest, word + [w[0]], words);
      assert word + [w[0]] + w[1..] == word + w;
    }
  }

  /** A bare field followed by a blank is split off as one word. */
  lemma BareFieldSplits(w: string, blank: char, rest: string, words: seq<string>)
    requires IsBareField(w) && IsBlank(blank)
    ensures Run(w + [blank] + rest, Delimiter, "", words) == Run(rest, Delimiter, "", words + [w])
  {
    var s := w + [blank] + rest;
    assert s[0] == w[0];
    assert s[1..] == w[1..] + ([blank] + rest);
    assert "" + [w[0]] == [w[0]];
    assert Run(s, Delimiter, "", words) == Run(s[1..], Unquoted, [w[0]], words);
    UnquotedRun(w[1..], [blank] + rest, [w[0]], words);
    assert [w[0]] + w[1..] == w;
    assert ([blank] + rest)[0] == blank && ([blank] + rest)[1..] == rest;
  }

  /** A double-quoted field followed by a blank is split off as one word, without its quotes. */
  lemma QuotedFieldSplits(w: string, blank: char, rest: string, words: seq<string>)
    requires forall i :: 0 <= i < |w| ==> IsQuotable(w[i])
    requires IsBlank(blank)
    ensures Run("\"" + w + "\"" + [blank] + rest, Delimiter, "", words) == Run(rest, Delimiter, "", words + [w])
  {
    var s := "\"" + w + "\"" + [blank] + rest;
    assert s[0] == '"';
    assert s[1..] == w + ("\"" + [blank] + rest);
    DoubleQuotedRun(w, "\"" + [blank] + rest, "", words);
    assert "" + w == w;
  }

  /** Words joined by single spaces. */
  function JoinWords(ws: seq<string>): string {
    if |ws| == 0 then ""
    else if |ws| == 1 then ws[0]
    else ws[0] + " " + JoinWords(ws[1..])
  }

  /** Bare words joined by spaces and followed by a blank split into exactly those words. */
  lemma {:induction false} JoinedWordsSplit(ws: seq<string>, blank: char, rest: string, words: seq<string>)
    requires forall i :: 0 <= i < |ws| ==> IsBareField(ws[i])
    requires IsBlank(blank)
    ensures Run(JoinWords(ws) + [blank] + rest, Delimiter, "", words) == Run(rest, Delimiter, "", words + ws)
  {
    if |ws| == 0 {
      assert JoinWords(ws) + [blank] + rest == [blank] + rest;
      assert ([blank] + rest)[0] == blank && ([blank] + rest)[1..] == rest;
      assert words + ws == words;
    } else if |ws| == 1 {
      BareFieldSplits(ws[0], blank, rest, words);
      assert ws == [ws[0]];
    } else {
      var tail := JoinWords(ws[1..]) + [blank] + rest;
      assert JoinWords(ws) + [blank] + rest == ws[0] + [' '] + tail;
      BareFieldSplits(ws[0], ' ', tail, words);
      JoinedWordsSplit(ws[1..], blank, rest, words + [ws[0]]);
      assert words + [ws[0]] + ws[1..] == words + ws;
    }
  }

  /** Bare words joined by spaces hold no newline. */
  lemma {:induction false} JoinedWordsHaveNoNewline(ws: seq<string>)
    requires forall i :: 0 <= i < |ws| ==> IsBareField(ws[i])
    ensures '\n' !in JoinWords(ws)
  {
    if |ws| > 0 {
      assert forall k :: 0 <= k < |ws[0]| ==> ws[0][k] != '\n' by {
        forall k | 0 <= k < |ws[0]| ensures ws[0][k] != '\n' { assert IsPlain(ws[0][k]); }
      }
      if |ws| > 1 {
        JoinedWordsHaveNoNewline(ws[1..]);
      }
    }
  }

  /** What `EscapeQuoted` writes for one character. */
  function EscapeChar(c: char): string {
    if IsQuotable(c) then [c] else ['\\', c]
  }

  /** `w` made safe for writing between double quotes: every `"` and `\`
      gets a backslash in front. */
  function EscapeQuoted(w: string): (e: string)
    ensures |e| >= |w|
  {
    if |w| == 0 then ""
    else EscapeChar(w[0]) + EscapeQuoted(w[1..])
  }

  /** Escaping adds only backslashes. */
  lemma {:induction false} EscapeAddsOnlyBackslashes(w: string, c: char)
    requires c != '\\' && c !in w
    ensures c !in EscapeQuoted(w)
  {
    if |w| > 0 {
      assert c !in w[1..] by {
        forall k | 0 <= k < |w[1..]| ensures w[1..][k] != c { assert w[1..][k] == w[k + 1]; }
      }
      EscapeAddsOnlyBackslashes(w[1..], c);
    }
  }

  lemma QuotableStep(c: char, tail: string, word: string, words: seq<string>)
    requires IsQuotable(c)
    ensures Run([c] + tail, DoubleQuoted, word, words) == Run(tail, DoubleQuoted, word + [c], words)
  {
    assert ([c] + tail)[0] == c && ([c] + tail)[1..] == tail;
  }

  lemma EscapedStep(c: char, tail: string, word: string, words: seq<string>)
    requires !IsQuotable(c)
    ensures Run(['\\', c] + tail, DoubleQuoted, word, words) == Run(tail, DoubleQuoted, word + [c], words)
  {
    assert (['\\', c] + tail)[0] == '\\' && (['\\', c] + tail)[1..] == [c] + tail;
    assert ([c] + tail)[0] == c && ([c] + tail)[1..] == tail;
  }

  lemma EscapeQuotedUnfold(w: string, rest: string)
    requires |w| > 0
    ensures EscapeQuoted(w) + rest == EscapeChar(w[0]) + (EscapeQuoted(w[1..]) + rest)
  {
  }

  lemma WordGrows(word: string, w: string)
    requires |w| > 0
    ensures word + [w[0]] + w[1..] == word + w
  {
    assert [w[0]] + w[1..] == w;
  }

  lemma EscapedCharStep(c: char, tail: string, word: string, words: seq<string>)
    ensures Run(EscapeChar(c) + tail, DoubleQuoted, word, words) == Run(tail, DoubleQuoted, word + [c], words)
  {
    if IsQuotable(c) {
      QuotableStep(c, tail, word, words);
    } else {
      EscapedStep(c, tail, word, words);
    }
  }

  lemma {:induction false} EscapedRun(w: string, rest: string, word: string, words: seq<string>)
    ensures Run(EscapeQuoted(w) + rest, DoubleQuoted, word, words) == Run(rest, DoubleQuoted, word + w, words)
  {
    if |w| == 0 {
      assert EscapeQuoted(w) + rest == rest;
      assert word + w == word;
    } else {
      EscapeQuotedUnfold(w, rest);
      EscapedCharStep(w[0], EscapeQuoted(w[1..]) + rest, word, words);
      EscapedRun(w[1..], rest, word + [w[0]], words);
      WordGrows(word, w);
    }
  }

  /** Any field, escaped and written between double quotes, splits back to itself. */
  lemma EscapedFieldSplits(w: string, blank: char, rest: string, words: seq<string>)
    requires IsBlank(blank)
    ensures Run("\"" + EscapeQuoted(w) + "\"" + [blank] + rest, Delimiter, "", words) == Run(rest, Delimiter, "", words + [w])
  {
    var s := "\"" + EscapeQuoted(w) + "\"" + [blank] + rest;
    assert s[0] == '"';
    assert s[1..] == EscapeQuoted(w) + ("\"" + [blank] + rest);
    EscapedRun(w, "\"" + [blank] + rest, "", words);
    assert "" + w == w;
  }

  /** Without quote characters the splitter cannot fail: its only error is an
      unbalanced quote. */
  lemma {:induction false} UnquotedInputSplits(rest: string, st: State, word: string, words: seq<string>)
    requires !IsQuoted(st)
    requires forall i :: 0 <= i < |rest| ==> rest[i] != '\'' && rest[i] != '"'
    ensures Run(rest, st, word, words).Success?
  {
    if |rest| > 0 {
      var c, tail := rest[0], rest[1..];
      assert forall i :: 0 <= i < |tail| ==> tail[i] == rest[i + 1];
      match st
      case Delimiter =>
        if c == '\\' { UnquotedInputSplits(tail, Backslash, word, words); }
        else if IsBlank(c) { UnquotedInputSplits(tail, Delimiter, word, words); }
        else if c == '#' { UnquotedInputSplits(tail, Comment, word, words); }
        else { UnquotedInputSplits(tail, Unquoted, word + [c], words); }
      case Backslash =>
        if c == '\n' { UnquotedInputSplits(tail, Delimiter, word, words); }
        else { UnquotedInputSplits(tail, Unquoted, word + [c], words); }
      case Unquoted =>
        if c == '\\' { UnquotedInputSplits(tail, UnquotedBackslash, word, words); }
        else if IsBlank(c) { UnquotedInputSplits(tail, Delimiter, "", words + [word]); }
        else { UnquotedInputSplits(tail, Unquoted, word + [c], words); }
      case UnquotedBackslash =>
        if c == '\n' { UnquotedInputSplits(tail, Unquoted, word, words); }
        else { UnquotedInputSplits(tail, Unquoted, word + [c], words); }
      case Comment =>
        if c == '\n' { UnquotedInputSplits(tail, Delimiter, word, words); }
        else { UnquotedInputSplits(tail, Comment, word, words); }
    }
  }

  lemma SplitFailsOnlyOnQuotes(s: string)
    requires Split(s).Failure?
    ensures '\'' in s || '"' in s
  {
    if forall i :: 0 <= i < |s| ==> s[i] != '\'' && s[i] != '"' {
      UnquotedInputSplits(s, Delimiter, "", []);
    }
  }
}
