/** What the store promises across several calls: written entries split back
    into their fields, an open entry goes to `current.jj` and is moved to the
    day log by a stop, and the day log only ever grows by whole lines. */
module TrackerProperties {
  import opened Wrappers
  import opened Text
  import opened FileSystem
  import opened Errors
  import opened ShellWords
  import opened TimeFormat
  import opened TrackerStore

  /** Fields that survive the trip through a written line: the four bare
      fields hold no blank, quote or backslash and do not start with `#`; the
      title, written between unescaped double quotes, holds no `"`, no `\`
      and no newline. */
  predicate CleanEntry(project: string, task: string, end: string, start: string, title: string) {
    && IsBareField(project) && IsBareField(task) && IsBareField(end) && IsBareField(start)
    && (forall i :: 0 <= i < |title| ==> IsQuotable(title[i]) && title[i] != '\n')
  }

  /** Splitting a written line with shell-word rules gives back its five fields. */
  lemma EntryLineSplits(project: string, task: string, end: string, start: string, title: string)
    requires CleanEntry(project, task, end, start, title)
    ensures Split(EntryLine(project, task, end, start, title)) == Success([project, task, end, start, title])
  {
    var quoted := "\"" + title + "\"" + ['\n'] + [];
    var r4 := start + [' '] + quoted;
    var r3 := end + [' '] + r4;
    var r2 := task + [' '] + r3;
    assert EntryLine(project, task, end, start, title) == project + [' '] + r2;
    calc {
      Split(EntryLine(project, task, end, start, title));
      Run(project + [' '] + r2, Delimiter, "", []);
      { BareFieldSplits(project, ' ', r2, []); assert [] + [project] == [project]; }
      Run(task + [' '] + r3, Delimiter, "", [project]);
      { BareFieldSplits(task, ' ', r3, [project]); assert [project] + [task] == [project, task]; }
      Run(end + [' '] + r4, Delimiter, "", [project, task]);
      { BareFieldSplits(end, ' ', r4, [project, task]); assert [project, task] + [end] == [project, task, end]; }
      Run(start + [' '] + quoted, Delimiter, "", [project, task, end]);
      { BareFieldSplits(start, ' ', quoted, [project, task, end]);
        assert [project, task, end] + [start] == [project, task, end, start]; }
      Run(quoted, Delimiter, "", [project, task, end, start]);
      { QuotedFieldSplits(title, '\n', [], [project, task, end, start]);
        assert [project, task, end, start] + [title] == [project, task, end, start, title]; }
      Run([], Delimiter, "", [project, task, end, start, title]);
    }
  }

  lemma CleanEntryHasNoNewline(project: string, task: string, end: string, start: string, title: string)
    requires CleanEntry(project, task, end, start, title)
    ensures IsCleanLine(EntryText(project, task, end, start, title))
  {
    var text := EntryText(project, task, end, start, title);
    assert text == project + " " + task + " " + end + " " + start + " \"" + title + "\"";
    forall i | 0 <= i < |text|
      ensures text[i] != '\n'
    {
      if i < |project| {
        assert text[i] == project[i];
      }
    }
  }

  /** A `current.jj` that starts with a clean entry line reads back as that entry's five fields. */
  lemma OpenEntryReadsBack(t: Tracker, fs: Fs, project: string, task: string, end: string, start: string, title: string, rest: string)
    requires |t.file| >= 1
    requires CleanEntry(project, task, end, start, title)
    requires Content(fs, CurrentPath(t)) == EntryLine(project, task, end, start, title) + rest
    ensures CurrentTokens(t, fs) == Success([project, task, end, start, title])
  {
    CleanEntryHasNoNewline(project, task, end, start, title);
    ReadLineOfFirst(EntryText(project, task, end, start, title), rest);
    EntryLineSplits(project, task, end, start, title);
  }

  /** An entry that stays open never reaches the day log. */
  lemma OpenEntryAvoidsDayLog(t: Tracker, fs: Fs, project: string, task: string, start: string, title: string)
    requires Valid(fs) && |t.file| >= 1 && t.file != CurrentPath(t)
    ensures var r := CreateEntry(t, fs, project, task, Sentinel, start, title);
      Content(r.fs, t.file) == Content(fs, t.file)
  {
  }

  /** The validation compares clock times: for four-digit `HHMM` strings an
      entry is rejected exactly when it ends earlier than it starts. */
  lemma RejectionIsClockOrder(end: string, start: string)
    requires |end| == 4 && |start| == 4 && AllDigits(end) && AllDigits(start)
    ensures Rejected(end, start) <==> DecimalValue(end) < DecimalValue(start)
  {
    LexLessIsNumericOrder(end, start);
  }

  /** An entry closed by a stop lands in the day log as one more line that
      `read` returns after the lines already there. */
  lemma ClosedEntryAddsOneLine(t: Tracker, fs: Fs, project: string, task: string, end: string, start: string, title: string)
    requires Valid(fs) && end != Sentinel
    requires CleanEntry(project, task, end, start, title)
    requires Read(t, fs).Success? && NewlineTerminated(fs.files[t.file])
    requires CreateEntry(t, fs, project, task, end, start, title).result.Success?
    ensures var r := CreateEntry(t, fs, project, task, end, start, title);
      Read(t, r.fs) == Success(Read(t, fs).value + [EntryText(project, task, end, start, title)])
  {
    var text := EntryText(project, task, end, start, title);
    CleanEntryHasNoNewline(project, task, end, start, title);
    AppendAddsOneLine(fs.files[t.file], text);
    assert fs.files[t.file] + EntryLine(project, task, end, start, title) == fs.files[t.file] + text + "\n";
  }

  /** Stopping with an open entry in `current.jj` moves it, with its stored
      end replaced by the stop time, to the end of the day log, and leaves
      `current.jj` empty. */
  lemma StopMovesOpenEntry(t: Tracker, fs: Fs, at: string, now: ClockTime, project: string, task: string, end: string, start: string, title: string, rest: string)
    requires Valid(fs) && |t.file| >= 1 && ValidClock(now)
    requires t.file in fs.files && t.file != CurrentPath(t)
    requires CleanEntry(project, task, end, start, title)
    requires CurrentPath(t) in fs.files
    requires fs.files[CurrentPath(t)] == EntryLine(project, task, end, start, title) + rest
    requires !Rejected(StopTime(at, now), start)
    ensures var r := StopCurrent(t, fs, at, now);
      && r.result.Success?
      && r.fs.dirs == fs.dirs
      && r.fs.files == fs.files[t.file := fs.files[t.file] + EntryLine(project, task, StopTime(at, now), start, title)][CurrentPath(t) := ""]
      && t.file in r.fs.files && r.fs.files[t.file] == fs.files[t.file] + EntryLine(project, task, StopTime(at, now), start, title)
      && r.fs.files[CurrentPath(t)] == ""
  {
    OpenEntryReadsBack(t, fs, project, task, end, start, title, rest);
    TouchExisting(fs, CurrentPath(t));
    assert Content(fs, t.file) == fs.files[t.file];
  }

  /** A stop time earlier than the open entry's start is refused, and the
      entry stays in `current.jj`. */
  lemma StopTooEarlyKeepsOpenEntry(t: Tracker, fs: Fs, at: string, now: ClockTime, project: string, task: string, end: string, start: string, title: string, rest: string)
    requires Valid(fs) && |t.file| >= 1 && ValidClock(now)
    requires CleanEntry(project, task, end, start, title)
    requires CurrentPath(t) in fs.files
    requires fs.files[CurrentPath(t)] == EntryLine(project, task, end, start, title) + rest
    requires Rejected(StopTime(at, now), start)
    ensures StopCurrent(t, fs, at, now) == Effect(fs, Failure(CustomError(EndBeforeStartMessage)))
  {
    OpenEntryReadsBack(t, fs, project, task, end, start, title, rest);
  }

  /** Stopping when `current.jj` is empty or missing succeeds and changes no file's contents. */
  lemma StopWhenIdle(t: Tracker, fs: Fs, at: string, now: ClockTime)
    requires Valid(fs) && |t.file| >= 1 && ValidClock(now)
    requires CanOpenOrCreate(fs, CurrentPath(t)) && Content(fs, CurrentPath(t)) == ""
    ensures var r := StopCurrent(t, fs, at, now);
      && r == Effect(Touch(fs, CurrentPath(t)), Success(()))
      && r.result.Success? && forall p :: p in fs.files ==> p in r.fs.files && r.fs.files[p] == fs.files[p]
  {
    assert ReadLine("") == "";
    assert Split("") == Success([]);
  }

  /** Opening an entry and then stopping it: the day log gains exactly the
      closed entry and `current.jj` is left empty. */
  lemma StartThenStop(t: Tracker, fs: Fs, project: string, task: string, start: string, title: string, at: string, now: ClockTime)
    requires Valid(fs) && |t.file| >= 1 && ValidClock(now)
    requires t.file in fs.files && t.file != CurrentPath(t)
    requires CanOpenOrCreate(fs, CurrentPath(t)) && Content(fs, CurrentPath(t)) == ""
    requires CleanEntry(project, task, Sentinel, start, title)
    requires !Rejected(StopTime(at, now), start)
    ensures var started := CreateEntry(t, fs, project, task, Sentinel, start, title);
      && started.result.Success?
      && var closed := StopCurrent(t, started.fs, at, now);
      && closed.result.Success?
      && Content(closed.fs, t.file) == fs.files[t.file] + EntryLine(project, task, StopTime(at, now), start, title)
      && Content(closed.fs, CurrentPath(t)) == ""
  {
    var started := CreateEntry(t, fs, project, task, Sentinel, start, title);
    assert started.fs.files[CurrentPath(t)] == EntryLine(project, task, Sentinel, start, title) + "";
    StopMovesOpenEntry(t, started.fs, at, now, project, task, Sentinel, start, title, "");
  }

  /** A closed entry written to an empty day log makes the log that one line. */
  lemma ClosedEntryOnEmptyLog(t: Tracker, fs: Fs, project: string, task: string, end: string, start: string, title: string)
    requires Valid(fs) && t.file in fs.files && fs.files[t.file] == ""
    requires !Rejected(end, start) && end != Sentinel
    ensures var r := CreateEntry(t, fs, project, task, end, start, title);
      r.result.Success? && r.fs.files[t.file] == EntryLine(project, task, end, start, title)
  {
    assert "" + EntryLine(project, task, end, start, title) == EntryLine(project, task, end, start, title);
  }

  lemma UnitTestOrder()
    ensures !Rejected("1234", "1130")
  {
    assert "1234"[0] == "1130"[0] && "1234"[1] > "1130"[1];
    assert "1234"[1..] == "234" && "1130"[1..] == "130";
  }

  lemma UnitTestFields()
    ensures !Rejected("1234", "1130")
    ensures EntryLine("proj", "PROJ-3", "1234", "1130", "Task title") == "proj PROJ-3 1234 1130 \"Task title\"\n"
  {
    UnitTestOrder();
  }

  /** The entry of the store's own unit test is written as
      `proj PROJ-3 1234 1130 "Task title"`. */
  lemma UnitTestLine(t: Tracker, fs: Fs)
    requires Valid(fs) && t.file in fs.files && fs.files[t.file] == ""
    ensures var r := CreateEntry(t, fs, "proj", "PROJ-3", "1234", "1130", "Task title");
      r.result.Success? && r.fs.files[t.file] == "proj PROJ-3 1234 1130 \"Task title\"\n"
  {
    UnitTestFields();
    ClosedEntryOnEmptyLog(t, fs, "proj", "PROJ-3", "1234", "1130", "Task title");
  }

  /** Opening and stopping an entry on an empty day log leaves `read` with just the closed entry. */
  lemma StartThenStopOnEmptyLog(t: Tracker, fs: Fs, project: string, task: string, start: string, title: string, at: string, now: ClockTime)
    requires Valid(fs) && |t.file| >= 1 && ValidClock(now)
    requires t.file in fs.files && fs.files[t.file] == "" && t.file != CurrentPath(t)
    requires CanOpenOrCreate(fs, CurrentPath(t)) && Content(fs, CurrentPath(t)) == ""
    requires CleanEntry(project, task, Sentinel, start, title) && IsBareField(StopTime(at, now))
    requires !Rejected(StopTime(at, now), start)
    ensures var started := CreateEntry(t, fs, project, task, Sentinel, start, title);
      var closed := StopCurrent(t, started.fs, at, now);
      && closed.result.Success?
      && Read(t, closed.fs) == Success([EntryText(project, task, StopTime(at, now), start, title)])
      && Content(closed.fs, CurrentPath(t)) == ""
  {
    var text := EntryText(project, task, StopTime(at, now), start, title);
    StartThenStop(t, fs, project, task, start, title, at, now);
    CleanEntryHasNoNewline(project, task, StopTime(at, now), start, title);
    SingleLine(text);
    assert "" + (text + "\n") == text + "\n";
  }

  lemma FixBugFields()
    ensures CleanEntry("PROJ", "T-1", Sentinel, "0900", "Fix bug")
    ensures IsBareField("1700") && !Rejected("1700", "0900")
    ensures EntryText("PROJ", "T-1", "1700", "0900", "Fix bug") == "PROJ T-1 1700 0900 \"Fix bug\""
  {
  }

  /** Opening `PROJ T-1 "Fix bug"` at 0900 and stopping at 1700 logs exactly
      `PROJ T-1 1700 0900 "Fix bug"`. */
  lemma FixBugScenario(t: Tracker, fs: Fs, now: ClockTime)
    requires Valid(fs) && |t.file| >= 1 && ValidClock(now)
    requires t.file in fs.files && fs.files[t.file] == "" && t.file != CurrentPath(t)
    requires CanOpenOrCreate(fs, CurrentPath(t)) && Content(fs, CurrentPath(t)) == ""
    ensures var started := CreateEntry(t, fs, "PROJ", "T-1", Sentinel, "0900", "Fix bug");
      var closed := StopCurrent(t, started.fs, "1700", now);
      && closed.result.Success?
      && Read(t, closed.fs) == Success(["PROJ T-1 1700 0900 \"Fix bug\""])
      && Content(closed.fs, CurrentPath(t)) == ""
  {
    FixBugFields();
    StartThenStopOnEmptyLog(t, fs, "PROJ", "T-1", "0900", "Fix bug", "1700", now);
  }

  lemma StrayWordSplit()
    ensures ReadLine("garbage") == "garbage"
    ensures Split("garbage") == Success(["garbage"])
  {
    assert "garbage"[0] == 'g' && "garbage"[1..] == "arbage" && "" + ['g'] == "g";
    assert Split("garbage") == Run("arbage", Unquoted, "g", []);
    UnquotedRun("arbage", "", "g", []);
    assert "arbage" + "" == "arbage" && "g" + "arbage" == "garbage";
    assert Run("", Unquoted, "garbage", []) == Success([] + ["garbage"]);
    assert [] + ["garbage"] == ["garbage"];
  }

  /** A `current.jj` holding one unrelated word counts as no open task. */
  lemma StrayWordIsIdle(t: Tracker, fs: Fs, now: ClockTime)
    requires Valid(fs) && |t.file| >= 1 && ValidClock(now)
    requires CurrentPath(t) in fs.files && fs.files[CurrentPath(t)] == "garbage"
    ensures StopCurrent(t, fs, Sentinel, now) == Effect(fs, Success(()))
  {
    var cur := CurrentPath(t);
    StrayWordSplit();
    assert CanOpenOrCreate(fs, cur);
    assert Content(fs, cur) == "garbage";
    assert CurrentTokens(t, fs) == Success(["garbage"]);
    assert |CurrentTokens(t, fs).value| != 5;
    TouchExisting(fs, cur);
  }

  lemma UnbalancedSplit()
    ensures ReadLine("a \"b\n") == "a \"b\n"
    ensures Split("a \"b\n") == Failure(MissingClosingQuote)
  {
  }

  /** A first line with an unbalanced quote is an error, not an idle tracker. */
  lemma UnbalancedQuoteIsError(t: Tracker, fs: Fs, now: ClockTime)
    requires Valid(fs) && |t.file| >= 1 && ValidClock(now)
    requires CurrentPath(t) in fs.files && fs.files[CurrentPath(t)] == "a \"b\n"
    ensures StopCurrent(t, fs, Sentinel, now) == Effect(fs, Failure(CustomError(MissingClosingQuoteMessage)))
  {
    UnbalancedSplit();
    assert Touch(fs, CurrentPath(t)) == fs;
  }

  /** A stop on an existing `current.jj` whose first line splits into other
      than five words succeeds and changes nothing. */
  lemma IdleWhenNotFiveWords(t: Tracker, fs: Fs, at: string, now: ClockTime)
    requires Valid(fs) && |t.file| >= 1 && ValidClock(now)
    requires CurrentPath(t) in fs.files
    requires CurrentTokens(t, fs).Success? && |CurrentTokens(t, fs).value| != 5
    ensures StopCurrent(t, fs, at, now) == Effect(fs, Success(()))
  {
    TouchExisting(fs, CurrentPath(t));
  }

  /** A stop on an existing `current.jj` whose first line does not split fails
      with "missing closing quote" and changes nothing. */
  lemma ErrorWhenSplitFails(t: Tracker, fs: Fs, at: string, now: ClockTime)
    requires Valid(fs) && |t.file| >= 1 && ValidClock(now)
    requires CurrentPath(t) in fs.files && CurrentTokens(t, fs).Failure?
    ensures StopCurrent(t, fs, at, now) == Effect(fs, Failure(CustomError(MissingClosingQuoteMessage)))
  {
    TouchExisting(fs, CurrentPath(t));
  }

  /** The first line of text starting with bare words joined by spaces reads back as those words. */
  lemma JoinedLineTokens(ws: seq<string>, rest: string)
    requires forall i :: 0 <= i < |ws| ==> IsBareField(ws[i])
    ensures Split(ReadLine(JoinWords(ws) + "\n" + rest)) == Success(ws)
  {
    JoinedWordsHaveNoNewline(ws);
    ReadLineOfFirst(JoinWords(ws), rest);
    assert JoinWords(ws) + "\n" == JoinWords(ws) + ['\n'] + [];
    JoinedWordsSplit(ws, '\n', [], []);
    assert [] + ws == ws;
  }

  lemma UnclosedLineHasNoNewline(ws: seq<string>, quoted: string)
    requires forall i :: 0 <= i < |ws| ==> IsBareField(ws[i])
    requires forall i :: 0 <= i < |quoted| ==> quoted[i] != '\n'
    ensures '\n' !in JoinWords(ws) + " \"" + quoted
  {
    var words, line := JoinWords(ws), JoinWords(ws) + " \"" + quoted;
    JoinedWordsHaveNoNewline(ws);
    forall k | 0 <= k < |line| ensures line[k] != '\n' {
      if k < |words| { assert line[k] == words[k]; }
      else if k >= |words| + 2 { assert line[k] == quoted[k - |words| - 2]; }
    }
  }

  lemma OpenQuoteLayout(words: string, quoted: string)
    ensures words + " \"" + quoted + "\n" == words + [' '] + ("\"" + (quoted + "\n"))
  {
  }

  /** A double quote that opens and is never closed before the newline is an error. */
  lemma OpenQuoteFails(quoted: string, words: seq<string>)
    requires forall i :: 0 <= i < |quoted| ==> IsQuotable(quoted[i])
    ensures Run("\"" + (quoted + "\n"), Delimiter, "", words) == Failure(MissingClosingQuote)
  {
    var body := quoted + "\n";
    assert ("\"" + body)[0] == '"' && ("\"" + body)[1..] == body;
    DoubleQuotedRun(quoted, "\n", "", words);
    assert "\n"[0] == '\n' && "\n"[1..] == "";
  }

  lemma UnclosedLineFails(ws: seq<string>, quoted: string)
    requires forall i :: 0 <= i < |ws| ==> IsBareField(ws[i])
    requires forall i :: 0 <= i < |quoted| ==> IsQuotable(quoted[i])
    ensures Split(JoinWords(ws) + " \"" + quoted + "\n") == Failure(MissingClosingQuote)
  {
    OpenQuoteLayout(JoinWords(ws), quoted);
    JoinedWordsSplit(ws, ' ', "\"" + (quoted + "\n"), []);
    assert [] + ws == ws;
    OpenQuoteFails(quoted, ws);
  }

  /** A first line of bare words followed by a double quote that is never closed does not split. */
  lemma UnclosedLineTokens(ws: seq<string>, quoted: string, rest: string)
    requires forall i :: 0 <= i < |ws| ==> IsBareField(ws[i])
    requires forall i :: 0 <= i < |quoted| ==> IsQuotable(quoted[i]) && quoted[i] != '\n'
    ensures Split(ReadLine(JoinWords(ws) + " \"" + quoted + "\n" + rest)) == Failure(MissingClosingQuote)
  {
    UnclosedLineHasNoNewline(ws, quoted);
    ReadLineOfFirst(JoinWords(ws) + " \"" + quoted, rest);
    UnclosedLineFails(ws, quoted);
  }

  /** A first line of bare words, joined by spaces, counts as no open task
      whenever there are not exactly five of them: the stop succeeds and
      changes nothing. */
  lemma OtherWordCountIsIdle(t: Tracker, fs: Fs, at: string, now: ClockTime, ws: seq<string>, rest: string)
    requires Valid(fs) && |t.file| >= 1 && ValidClock(now)
    requires forall i :: 0 <= i < |ws| ==> IsBareField(ws[i])
    requires |ws| != 5
    requires CurrentPath(t) in fs.files && fs.files[CurrentPath(t)] == JoinWords(ws) + "\n" + rest
    ensures StopCurrent(t, fs, at, now) == Effect(fs, Success(()))
  {
    JoinedLineTokens(ws, rest);
    assert Content(fs, CurrentPath(t)) == JoinWords(ws) + "\n" + rest;
    IdleWhenNotFiveWords(t, fs, at, now);
  }

  /** A first line of bare words followed by a double quote that is never
      closed makes every stop fail with "missing closing quote", changing nothing. */
  lemma UnclosedQuoteIsError(t: Tracker, fs: Fs, at: string, now: ClockTime, ws: seq<string>, quoted: string, rest: string)
    requires Valid(fs) && |t.file| >= 1 && ValidClock(now)
    requires forall i :: 0 <= i < |ws| ==> IsBareField(ws[i])
    requires forall i :: 0 <= i < |quoted| ==> IsQuotable(quoted[i]) && quoted[i] != '\n'
    requires CurrentPath(t) in fs.files
    requires fs.files[CurrentPath(t)] == JoinWords(ws) + " \"" + quoted + "\n" + rest
    ensures StopCurrent(t, fs, at, now) == Effect(fs, Failure(CustomError(MissingClosingQuoteMessage)))
  {
    UnclosedLineTokens(ws, quoted, rest);
    assert Content(fs, CurrentPath(t)) == JoinWords(ws) + " \"" + quoted + "\n" + rest;
    ErrorWhenSplitFails(t, fs, at, now);
  }

  /** Each reference date has its own day log, and every day's tracker shares
      the one `current.jj` under `<data dir>/jired/`, so an entry left open on
      one day is closed into the log of the day it is stopped on. */
  lemma DaysShareCurrentFile(dataDir: Path, a: string, b: string, ca: Config, cb: Config)
    ensures LogPath(dataDir, a) == LogPath(dataDir, b) <==> a == b
    ensures CurrentPath(Tracker(LogPath(dataDir, a), ca)) == CurrentPath(Tracker(LogPath(dataDir, b), cb))
      == dataDir + [PackageName, CurrentFileName]
  {
    var pa, pb := LogPath(dataDir, a), LogPath(dataDir, b);
    if pa == pb {
      assert a + LogExtension == b + LogExtension;
      assert a == (a + LogExtension)[..|a|];
      assert |a| == |b|;
      assert b == (b + LogExtension)[..|b|];
    }
    assert Parent(pa) == dataDir + [PackageName] == Parent(pb);
  }

  lemma QuoteInTitleLine()
    ensures EntryLine("P", "T-1", Sentinel, "0900", "a\"b") == "P T-1 -1 0900 \"a\"b\"" + "\n"
    ensures ReadLine("P T-1 -1 0900 \"a\"b\"" + "\n" + "") == "P T-1 -1 0900 \"a\"b\"" + "\n"
  {
    ReadLineOfFirst("P T-1 -1 0900 \"a\"b\"", "");
  }

  lemma QuoteInTitleTail()
    ensures Run("\"a\"b\"\n", Delimiter, "", ["P", "T-1", "-1", "0900"]) == Failure(MissingClosingQuote)
  {
  }

  lemma QuoteInTitleSplit()
    ensures Split("P T-1 -1 0900 \"a\"b\"" + "\n") == Failure(MissingClosingQuote)
  {
    var tail := "\"a\"b\"\n";
    var r3 := "0900" + [' '] + tail;
    var r2 := "-1" + [' '] + r3;
    var r1 := "T-1" + [' '] + r2;
    assert "P T-1 -1 0900 \"a\"b\"" + "\n" == "P" + [' '] + r1;
    BareFieldSplits("P", ' ', r1, []);
    assert [] + ["P"] == ["P"];
    BareFieldSplits("T-1", ' ', r2, ["P"]);
    assert ["P"] + ["T-1"] == ["P", "T-1"];
    BareFieldSplits("-1", ' ', r3, ["P", "T-1"]);
    assert ["P", "T-1"] + ["-1"] == ["P", "T-1", "-1"];
    BareFieldSplits("0900", ' ', tail, ["P", "T-1", "-1"]);
    assert ["P", "T-1", "-1"] + ["0900"] == ["P", "T-1", "-1", "0900"];
    QuoteInTitleTail();
  }

  /** As written, `create_entry` puts a title holding a `"` between quotes
      without escaping it. Opening such an entry leaves a `current.jj` that
      every later stop refuses with "missing closing quote". */
  lemma QuoteInTitleBreaksStop(t: Tracker, fs: Fs, at: string, now: ClockTime)
    requires Valid(fs) && |t.file| >= 1 && ValidClock(now)
    requires t.file in fs.files && CurrentPath(t) in fs.files && fs.files[CurrentPath(t)] == ""
    ensures var started := CreateEntry(t, fs, "P", "T-1", Sentinel, "0900", "a\"b");
      && started.result.Success?
      && StopCurrent(t, started.fs, at, now) == Effect(started.fs, Failure(CustomError(MissingClosingQuoteMessage)))
  {
    var cur, line := CurrentPath(t), "P T-1 -1 0900 \"a\"b\"" + "\n";
    QuoteInTitleLine();
    var started := CreateEntry(t, fs, "P", "T-1", Sentinel, "0900", "a\"b");
    assert started.fs.files[cur] == "" + line;
    assert Content(started.fs, cur) == line + "";
    QuoteInTitleSplit();
    assert CurrentTokens(t, started.fs) == Failure(MissingClosingQuote);
    TouchExisting(started.fs, cur);
  }

  /** With the title escaped, a written line splits back into its five fields
      whatever the title holds. */
  lemma EscapedEntryLineSplits(project: string, task: string, end: string, start: string, title: string)
    requires IsBareField(project) && IsBareField(task) && IsBareField(end) && IsBareField(start)
    ensures Split(EscapedEntryLine(project, task, end, start, title)) == Success([project, task, end, start, title])
  {
    var quoted := "\"" + EscapeQuoted(title) + "\"" + ['\n'] + [];
    var r4 := start + [' '] + quoted;
    var r3 := end + [' '] + r4;
    var r2 := task + [' '] + r3;
    assert EscapedEntryLine(project, task, end, start, title) == project + [' '] + r2;
    BareFieldSplits(project, ' ', r2, []);
    assert [] + [project] == [project];
    BareFieldSplits(task, ' ', r3, [project]);
    assert [project] + [task] == [project, task];
    BareFieldSplits(end, ' ', r4, [project, task]);
    assert [project, task] + [end] == [project, task, end];
    BareFieldSplits(start, ' ', quoted, [project, task, end]);
    assert [project, task, end] + [start] == [project, task, end, start];
    EscapedFieldSplits(title, '\n', [], [project, task, end, start]);
    assert [project, task, end, start] + [title] == [project, task, end, start, title];
  }

  /** A `current.jj` starting with an escaped entry line reads back as that
      entry's five fields, for any title without a newline. */
  lemma EscapedEntryReadsBack(t: Tracker, fs: Fs, project: string, task: string, end: string, start: string, title: string, rest: string)
    requires |t.file| >= 1
    requires IsBareField(project) && IsBareField(task) && IsBareField(end) && IsBareField(start)
    requires '\n' !in title
    requires Content(fs, CurrentPath(t)) == EscapedEntryLine(project, task, end, start, title) + rest
    ensures CurrentTokens(t, fs) == Success([project, task, end, start, title])
  {
    var text := EscapedEntryText(project, task, end, start, title);
    EscapeAddsOnlyBackslashes(title, '\n');
    var e := EscapeQuoted(title);
    assert text == project + " " + task + " " + end + " " + start + " \"" + e + "\"";
    assert '\n' !in text by {
      forall i | 0 <= i < |text| ensures text[i] != '\n' {
        var k := |project| + |task| + |end| + |start| + 5;
        if i < |project| { assert text[i] == project[i]; }
        else if k <= i < k + |e| { assert text[i] == e[i - k]; }
      }
    }
    ReadLineOfFirst(text, rest);
    EscapedEntryLineSplits(project, task, end, start, title);
  }

  /** The title of the failing example, escaped, reads back intact. */
  lemma QuoteInTitleEscaped(t: Tracker, fs: Fs)
    requires |t.file| >= 1
    requires Content(fs, CurrentPath(t)) == EscapedEntryLine("P", "T-1", Sentinel, "0900", "a\"b")
    ensures CurrentTokens(t, fs) == Success(["P", "T-1", Sentinel, "0900", "a\"b"])
  {
    assert IsBareField("P") && IsBareField("T-1") && IsBareField(Sentinel) && IsBareField("0900");
    assert Content(fs, CurrentPath(t)) == EscapedEntryLine("P", "T-1", Sentinel, "0900", "a\"b") + "";
    EscapedEntryReadsBack(t, fs, "P", "T-1", Sentinel, "0900", "a\"b", "");
  }

  /** Creating the day log twice is creating it once. */
  lemma WithPathAndConfigIdempotent(file: Path, config: Config, fs: Fs)
    requires Valid(fs)
    ensures var once := WithPathAndConfig(file, config, fs);
      WithPathAndConfig(file, config, once.fs) == Effect(once.fs, once.result)
  {
  }

  /** An entry with an empty task and an empty title, as an out-of-range pick
      writes it, splits into only four words: the empty task leaves no word. */
  lemma BlankTaskLineSplits(project: string, start: string)
    requires IsBareField(project) && IsBareField(start)
    ensures Split(EntryLine(project, "", Sentinel, start, "")) == Success([project, Sentinel, start, ""])
  {
    var r3 := "\"" + "" + "\"" + ['\n'] + [];
    var r2 := start + [' '] + r3;
    var r1 := Sentinel + [' '] + r2;
    assert EntryLine(project, "", Sentinel, start, "") == project + [' '] + ([' '] + r1);
    BareFieldSplits(project, ' ', [' '] + r1, []);
    assert ([' '] + r1)[0] == ' ' && ([' '] + r1)[1..] == r1;
    assert [] + [project] == [project];
    assert IsBareField(Sentinel);
    BareFieldSplits(Sentinel, ' ', r2, [project]);
    assert [project] + [Sentinel] == [project, Sentinel];
    BareFieldSplits(start, ' ', r3, [project, Sentinel]);
    assert [project, Sentinel] + [start] == [project, Sentinel, start];
    QuotedFieldSplits("", '\n', [], [project, Sentinel, start]);
    assert [project, Sentinel, start] + [""] == [project, Sentinel, start, ""];
  }

  lemma BlankTaskTextHasNoNewline(project: string, start: string)
    requires IsBareField(project) && IsBareField(start)
    ensures '\n' !in EntryText(project, "", Sentinel, start, "")
  {
    var text := EntryText(project, "", Sentinel, start, "");
    assert text == project + "  -1 " + start + " \"\"";
    forall k | 0 <= k < |text| ensures text[k] != '\n' {
      if k < |project| { assert text[k] == project[k]; assert IsPlain(project[k]); }
      else if |project| + 5 <= k < |project| + 5 + |start| {
        assert text[k] == start[k - |project| - 5]; assert IsPlain(start[k - |project| - 5]);
      }
    }
  }

  /** A `current.jj` starting with such a four-word entry counts as no open
      task: every stop succeeds and changes nothing, so the entry is never closed. */
  lemma BlankTaskEntryIsIdle(t: Tracker, fs: Fs, at: string, now: ClockTime, project: string, start: string, rest: string)
    requires Valid(fs) && |t.file| >= 1 && ValidClock(now)
    requires IsBareField(project) && IsBareField(start)
    requires CurrentPath(t) in fs.files && fs.files[CurrentPath(t)] == EntryLine(project, "", Sentinel, start, "") + rest
    ensures StopCurrent(t, fs, at, now) == Effect(fs, Success(()))
  {
    var text := EntryText(project, "", Sentinel, start, "");
    BlankTaskTextHasNoNewline(project, start);
    ReadLineOfFirst(text, rest);
    BlankTaskLineSplits(project, start);
    assert Content(fs, CurrentPath(t)) == text + "\n" + rest;
    assert CurrentTokens(t, fs) == Success([project, Sentinel, start, ""]);
    IdleWhenNotFiveWords(t, fs, at, now);
  }
}
