/** The Jira board (src/boards/jira.rs): the keyring names of its secrets and
    `logout`, the issue-search URL, the filter of `fuzzy_search`, the choice
    made by `pick_issue`, and the `start`, `stop` and `set` commands over the
    tracker. */
module Jira {
  import opened Wrappers
  import opened Text
  import opened FileSystem
  import opened Errors
  import opened TimeFormat
  import opened TrackerStore
  import opened PercentEncoding
  import opened TrackerProperties
  import opened ShellWords

  // ---------------------------------------------------------------- secrets

  datatype JiraSecret = Username | JiraApiToken | AccountId | Server

  /** The keyring key of a secret: its variant name, as `Debug` prints it. */
  function SecretName(s: JiraSecret): string {
    match s
    case Username => "Username"
    case JiraApiToken => "JiraApiToken"
    case AccountId => "AccountId"
    case Server => "Server"
  }

  /** The variants in declaration order, as `JiraSecrets::iter()` yields them. */
  const AllSecrets: seq<JiraSecret> := [Username, JiraApiToken, AccountId, Server]

  /** Every variant is iterated, and distinct variants have distinct keys. */
  lemma SecretsEnumerated(a: JiraSecret, b: JiraSecret)
    ensures a in AllSecrets
    ensures SecretName(a) == SecretName(b) <==> a == b
  {
  }

  /** `logout`: deletes the keyring entry of every secret; other entries stay. */
  method Logout(store: map<string, string>) returns (after: map<string, string>)
    ensures after.Keys == store.Keys - {"Username", "JiraApiToken", "AccountId", "Server"}
    ensures forall k :: k in after ==> after[k] == store[k]
  {
    after := store;
    var i := 0;
    while i < |AllSecrets|
      invariant 0 <= i <= |AllSecrets|
      invariant forall k :: k in after <==> k in store && forall j :: 0 <= j < i ==> k != SecretName(AllSecrets[j])
      invariant forall k :: k in after ==> after[k] == store[k]
    {
      after := after - {SecretName(AllSecrets[i])};
      i := i + 1;
    }
    assert SecretName(AllSecrets[0]) == "Username" && SecretName(AllSecrets[1]) == "JiraApiToken";
    assert SecretName(AllSecrets[2]) == "AccountId" && SecretName(AllSecrets[3]) == "Server";
  }

  // ---------------------------------------------------------------- search URL

  const FieldParameters := "fields=key,summary,statusCategory&maxResults=50"

  /** The JQL of `IssuesOnProjectQuery`: `assignee=<account id> and
      project=<PROJECT>`, the project code in upper case. */
  function JqlRaw(accountId: string, project: string): (q: string)
    ensures |q| == 22 + |accountId| + |project|
    ensures q[..9] == "assignee=" && q[9..9 + |accountId|] == accountId
    ensures q[9 + |accountId|..22 + |accountId|] == " and project="
    ensures q[|q| - |project|..] == AsciiUpper(project)
    ensures forall i :: |q| - |project| <= i < |q| ==> !('a' <= q[i] <= 'z')
  {
    "assignee=" + accountId + " and project=" + AsciiUpper(project)
  }

  function BaseUrl(server: string): string {
    "https://" + server + "/rest/api/3/search"
  }

  /** `JiraSearchQuery::query`. */
  function SearchUrl(server: string, accountId: string, project: string): (url: string)
    ensures |url| >= |BaseUrl(server)| + 6 + |FieldParameters|
    ensures url[..|BaseUrl(server)| + 5] == BaseUrl(server) + "?jql="
    ensures url[|url| - |FieldParameters| - 1..] == "&" + FieldParameters
  {
    var head, query, tail := BaseUrl(server) + "?jql=", Encode(Utf8(JqlRaw(accountId, project))), "&" + FieldParameters;
    assert |head| == |BaseUrl(server)| + 5 && |tail| == |FieldParameters| + 1;
    ConcatEnds(head, query, tail);
    head + (query + tail)
  }

  lemma ConcatEnds(a: string, b: string, c: string)
    ensures |a + (b + c)| == |a| + |b| + |c|
    ensures (a + (b + c))[..|a|] == a && (a + (b + c))[|a| + |b|..] == c
  {
  }

  /** The text before the first `c`, or all of `s`. */
  function TakeUntil(s: string, c: char): (r: string)
    ensures r <= s && c !in r
    ensures |r| < |s| ==> s[|r|] == c
  {
    if |s| == 0 || s[0] == c then "" else [s[0]] + TakeUntil(s[1..], c)
  }

  lemma {:induction false} TakeUntilConcat(a: string, b: string, c: char)
    requires c !in a && |b| > 0 && b[0] == c
    ensures TakeUntil(a + b, c) == a
  {
    if |a| > 0 {
      assert (a + b)[0] == a[0];
      assert (a + b)[1..] == a[1..] + b;
      TakeUntilConcat(a[1..], b, c);
      assert [a[0]] + a[1..] == a;
    } else {
      assert a + b == b;
    }
  }

  /** The `jql` parameter of the URL, read the way a server reads it (up to
      the next `&`), decodes to the UTF-8 bytes of the raw JQL. */
  lemma SearchUrlCarriesJql(server: string, accountId: string, project: string)
    ensures var url := SearchUrl(server, accountId, project);
      Decode(TakeUntil(url[|BaseUrl(server)| + 5..], '&')) == Some(Utf8(JqlRaw(accountId, project)))
  {
    var bs := Utf8(JqlRaw(accountId, project));
    var q := Encode(bs);
    var url := SearchUrl(server, accountId, project);
    var rest := "&" + FieldParameters;
    assert url == (BaseUrl(server) + "?jql=") + (q + rest);
    assert url[|BaseUrl(server)| + 5..] == q + rest;
    assert '&' !in q by {
      forall i | 0 <= i < |q| ensures q[i] != '&' {
        assert IsEncodedChar(q[i]);
      }
    }
    assert rest[0] == '&';
    TakeUntilConcat(q, rest, '&');
    DecodeEncode(bs);
  }

  // ---------------------------------------------------------------- issues

  /** The part of `serde_json::Value` the filter looks at. */
  datatype Json =
    | Null
    | Bool(b: bool)
    | Number(n: int)
    | Str(s: string)
    | Array(items: seq<Json>)
    | Object(members: map<string, Json>)

  /** A fetched issue: its key, its summary and its status category. */
  datatype Issue = Issue(key: string, summary: string, statusCategory: Json)

  const InProgress := "In Progress"

  /** `category.get("name")`, or `Value::Null` when there is none. */
  function StatusName(category: Json): (v: Json)
    ensures category.Object? && "name" in category.members ==> v == category.members["name"]
    ensures !(category.Object? && "name" in category.members) ==> v == Null
  {
    if category.Object? && "name" in category.members then category.members["name"] else Null
  }

  predicate IsInProgress(issue: Issue) {
    StatusName(issue.statusCategory) == Str(InProgress)
  }

  /** The filter's test: the lower-cased summary contains the pattern (which
      is itself not lower-cased) and the status is "In Progress". */
  predicate Matches(issue: Issue, pattern: string) {
    Contains(AsciiLower(issue.summary), pattern) && IsInProgress(issue)
  }

  /** `a` is `b` with some elements left out. */
  predicate IsSubsequence<T(==)>(a: seq<T>, b: seq<T>)
    decreases |b|
  {
    |a| == 0 || (|b| > 0 && ((a[0] == b[0] && IsSubsequence(a[1..], b[1..])) || IsSubsequence(a, b[1..])))
  }

  /** The filter of `fuzzy_search`. */
  function FuzzyFilter(issues: seq<Issue>, pattern: string): (r: seq<Issue>)
    ensures forall x :: x in r <==> x in issues && Matches(x, pattern)
    ensures forall i :: 0 <= i < |r| ==> Matches(r[i], pattern)
    ensures IsSubsequence(r, issues)
    ensures forall x :: multiset(r)[x] == if Matches(x, pattern) then multiset(issues)[x] else 0
  {
    if |issues| == 0 then []
    else
      var rest := FuzzyFilter(issues[1..], pattern);
      Cons(issues[0], issues[1..]);
      assert issues == [issues[0]] + issues[1..];
      if Matches(issues[0], pattern) then
        Cons(issues[0], rest);
        [issues[0]] + rest
      else rest
  }

  /** What putting `x` in front of `s` does to membership and counts. */
  lemma Cons<T>(x: T, s: seq<T>)
    ensures ([x] + s)[0] == x && ([x] + s)[1..] == s
    ensures forall y :: y in [x] + s <==> y == x || y in s
    ensures multiset([x] + s) == multiset{x} + multiset(s)
  {
  }

  /** When every issue matches, the filter keeps them all. */
  lemma {:induction false} FilterKeepsAllMatches(issues: seq<Issue>, pattern: string)
    requires forall i :: 0 <= i < |issues| ==> Matches(issues[i], pattern)
    ensures FuzzyFilter(issues, pattern) == issues
  {
    if |issues| > 0 {
      FilterKeepsAllMatches(issues[1..], pattern);
      assert [issues[0]] + issues[1..] == issues;
    }
  }

  /** When no issue matches, the filter keeps none. */
  lemma {:induction false} FilterDropsAllMismatches(issues: seq<Issue>, pattern: string)
    requires forall i :: 0 <= i < |issues| ==> !Matches(issues[i], pattern)
    ensures FuzzyFilter(issues, pattern) == []
  {
    if |issues| > 0 {
      FilterDropsAllMismatches(issues[1..], pattern);
    }
  }

  lemma UpperNotInLower(s: string, c: char)
    requires 'A' <= c <= 'Z'
    ensures c !in AsciiLower(s)
  {
    var lower := AsciiLower(s);
    forall k | 0 <= k < |lower| ensures lower[k] != c {
      assert lower[k] == LowerChar(s[k]);
    }
  }

  /** A pattern holding an upper-case ASCII letter matches no summary, since
      only the summary is lower-cased. */
  lemma UppercasePatternMatchesNothing(issues: seq<Issue>, pattern: string, j: nat)
    requires j < |pattern| && 'A' <= pattern[j] <= 'Z'
    ensures FuzzyFilter(issues, pattern) == []
  {
    forall i | 0 <= i < |issues| ensures !Matches(issues[i], pattern) {
      UpperNotInLower(issues[i].summary, pattern[j]);
      MissingCharNotContained(AsciiLower(issues[i].summary), pattern, j);
    }
    FilterDropsAllMismatches(issues, pattern);
  }

  // ---------------------------------------------------------------- commands

  const NoMatchMessage := "There are no tickets matching your search"
  const InvalidNumberMessage := "Please enter a valid number"

  /** `pick_issue`, given the number the user typed (`None` when it does not
      parse): the issue at that 1-based position, or two empty strings when
      there is none. */
  function PickIssue(issues: seq<Issue>, input: Option<nat>): (r: Result<(string, string), Error>)
    ensures input.None? <==> r.Failure?
    ensures r.Failure? ==> r.error == CustomError(InvalidNumberMessage)
    ensures input.Some? && 1 <= input.value <= |issues| ==>
      r == Success((issues[input.value - 1].key, issues[input.value - 1].summary))
    ensures input.Some? && !(1 <= input.value <= |issues|) ==> r == Success(("", ""))
  {
    match input
    case None => Failure(CustomError(InvalidNumberMessage))
    case Some(n) =>
      if 1 <= n <= |issues| then Success((issues[n - 1].key, issues[n - 1].summary)) else Success(("", ""))
  }

  /** `pick_issue` as evidently intended: a number outside the list is refused
      like one that does not parse, instead of picking two empty strings. */
  function CheckedPick(issues: seq<Issue>, input: Option<nat>): (r: Result<(string, string), Error>)
    ensures r.Success? <==> input.Some? && 1 <= input.value <= |issues|
    ensures r.Failure? ==> r.error == CustomError(InvalidNumberMessage)
  {
    if input.Some? && 1 <= input.value <= |issues| then PickIssue(issues, input)
    else Failure(CustomError(InvalidNumberMessage))
  }

  /** The checked pick agrees with `pick_issue` wherever it succeeds, and
      refuses exactly the numbers for which `pick_issue` falls back to two
      empty strings. */
  lemma CheckedPickAgrees(issues: seq<Issue>, input: Option<nat>)
    ensures CheckedPick(issues, input).Success? ==> PickIssue(issues, input) == CheckedPick(issues, input)
    ensures input.Some? && CheckedPick(issues, input).Failure? ==> PickIssue(issues, input) == Success(("", ""))
    ensures input.None? ==> PickIssue(issues, input) == CheckedPick(issues, input)
  {
  }

  /** With the checked pick, the entry `start` opens for well-formed keys and
      summaries always splits back into five words, so a later stop closes it. */
  lemma CheckedPickEntryCloses(issues: seq<Issue>, projectCode: string, from: string, input: Option<nat>)
    requires forall i :: 0 <= i < |issues| ==> CleanEntry(projectCode, issues[i].key, Sentinel, from, issues[i].summary)
    requires CheckedPick(issues, input).Success?
    ensures var chosen := CheckedPick(issues, input).value;
      Split(EntryLine(projectCode, chosen.0, Sentinel, from, chosen.1)) == Success([projectCode, chosen.0, Sentinel, from, chosen.1])
  {
    var i := input.value - 1;
    assert CheckedPick(issues, input).value == (issues[i].key, issues[i].summary);
    EntryLineSplits(projectCode, issues[i].key, Sentinel, from, issues[i].summary);
  }

  /** The key and summary `start` logs: the only match, or the user's pick. */
  function Selection(matches: seq<Issue>, input: Option<nat>): Result<(string, string), Error>
    requires |matches| >= 1
  {
    if |matches| != 1 then PickIssue(matches, input) else Success((matches[0].key, matches[0].summary))
  }

  /** The `start` arm: search, choose an issue, stop the open task at the
      current time, then log the new entry with end `till` and start `from`.
      `fetched` stands for the issues the search request returned. */
  function StartCommand(t: Tracker, fs: Fs, fetched: Result<seq<Issue>, Error>, projectCode: string, pattern: string,
                        till: string, from: string, input: Option<nat>, now: ClockTime): (r: Effect<()>)
    requires Valid(fs) && |t.file| >= 1 && ValidClock(now)
    ensures Valid(r.fs)
    ensures fetched.Failure? ==> r == Effect(fs, Failure(fetched.error))
    ensures fetched.Success? && FuzzyFilter(fetched.value, pattern) == [] ==>
      r == Effect(fs, Failure(CustomError(NoMatchMessage)))
    ensures fetched.Success? && |FuzzyFilter(fetched.value, pattern)| > 1 && input.None? ==>
      r == Effect(fs, Failure(CustomError(InvalidNumberMessage)))
    ensures fetched.Success? && |FuzzyFilter(fetched.value, pattern)| >= 1
            && Selection(FuzzyFilter(fetched.value, pattern), input).Success?
            && StopCurrent(t, fs, Sentinel, now).result.Failure? ==>
      r == StopCurrent(t, fs, Sentinel, now)
    ensures fetched.Success? && |FuzzyFilter(fetched.value, pattern)| >= 1
            && Selection(FuzzyFilter(fetched.value, pattern), input).Success?
            && StopCurrent(t, fs, Sentinel, now).result.Success? ==>
      var stopped := StopCurrent(t, fs, Sentinel, now).fs;
      && (r.result.Failure? ==> r.fs == stopped)
      && (Rejected(till, from) ==> r == Effect(stopped, Failure(CustomError(EndBeforeStartMessage))))
    ensures r.result.Success? ==>
      && fetched.Success? && |FuzzyFilter(fetched.value, pattern)| >= 1
      && Selection(FuzzyFilter(fetched.value, pattern), input).Success?
      && StopCurrent(t, fs, Sentinel, now).result.Success?
      && var chosen := Selection(FuzzyFilter(fetched.value, pattern), input).value;
         var stopped := StopCurrent(t, fs, Sentinel, now).fs;
         && r.fs.dirs == stopped.dirs
         && r.fs.files == stopped.files[Target(t, till) := Content(stopped, Target(t, till)) + EntryLine(projectCode, chosen.0, till, from, chosen.1)]
    ensures r.result.Success? && |FuzzyFilter(fetched.value, pattern)| == 1 ==>
      var m := FuzzyFilter(fetched.value, pattern)[0];
      var stopped := StopCurrent(t, fs, Sentinel, now).fs;
      && r.fs.dirs == stopped.dirs
      && r.fs.files == stopped.files[Target(t, till) := Content(stopped, Target(t, till)) + EntryLine(projectCode, m.key, till, from, m.summary)]
  {
    match fetched
    case Failure(e) => Effect(fs, Failure(e))
    case Success(issues) =>
      var matches := FuzzyFilter(issues, pattern);
      if |matches| == 0 then Effect(fs, Failure(CustomError(NoMatchMessage)))
      else
        match Selection(matches, input)
        case Failure(e) => Effect(fs, Failure(e))
        case Success(chosen) =>
          var stopped := StopCurrent(t, fs, Sentinel, now);
          if stopped.result.Failure? then stopped
          else CreateEntry(t, stopped.fs, projectCode, chosen.0, till, from, chosen.1)
  }

  /** The `stop` arm: without `--at` the sentinel is passed, so the clock decides. */
  function StopCommand(t: Tracker, fs: Fs, at: Option<string>, now: ClockTime): (r: Effect<()>)
    requires Valid(fs) && |t.file| >= 1 && ValidClock(now)
    ensures Valid(r.fs)
    ensures at.None? ==> r == StopCurrent(t, fs, Sentinel, now)
    ensures at.Some? ==> r == StopCurrent(t, fs, at.value, now)
  {
    StopCurrent(t, fs, at.GetOr(Sentinel), now)
  }

  /** The end time `stop` gives the open task. */
  function StopEnd(at: Option<string>, now: ClockTime): string
    requires ValidClock(now)
  {
    if at.Some? && at.value != Sentinel then at.value else FormatHHMM(now)
  }

  /** `stop` on an open entry closes it at `--at` verbatim, or at the clock's
      `HHMM` when `--at` is absent (or is the sentinel itself). */
  lemma StopCommandCloses(t: Tracker, fs: Fs, at: Option<string>, now: ClockTime,
                          project: string, task: string, end: string, start: string, title: string)
    requires Valid(fs) && |t.file| >= 1 && ValidClock(now)
    requires t.file in fs.files && t.file != CurrentPath(t)
    requires CleanEntry(project, task, end, start, title)
    requires CurrentPath(t) in fs.files && fs.files[CurrentPath(t)] == EntryLine(project, task, end, start, title)
    requires !Rejected(StopEnd(at, now), start)
    ensures var r := StopCommand(t, fs, at, now);
      && r.result.Success?
      && r.fs.files == fs.files[t.file := fs.files[t.file] + EntryLine(project, task, StopEnd(at, now), start, title)][CurrentPath(t) := ""]
  {
    assert StopTime(at.GetOr(Sentinel), now) == StopEnd(at, now);
    assert fs.files[CurrentPath(t)] == EntryLine(project, task, end, start, title) + "";
    StopMovesOpenEntry(t, fs, at.GetOr(Sentinel), now, project, task, end, start, title, "");
  }

  /** With nothing open and a single match, `start` without `--till` leaves
      exactly the new entry open in `current.jj` and the day log as it was. */
  lemma StartFromIdle(t: Tracker, fs: Fs, issues: seq<Issue>, projectCode: string, pattern: string,
                      from: string, input: Option<nat>, now: ClockTime)
    requires Valid(fs) && |t.file| >= 1 && ValidClock(now)
    requires t.file in fs.files && t.file != CurrentPath(t)
    requires CanOpenOrCreate(fs, CurrentPath(t)) && Content(fs, CurrentPath(t)) == ""
    requires |FuzzyFilter(issues, pattern)| == 1
    ensures var m := FuzzyFilter(issues, pattern)[0];
      var r := StartCommand(t, fs, Success(issues), projectCode, pattern, Sentinel, from, input, now);
      && r.result.Success?
      && r.fs.files[CurrentPath(t)] == EntryLine(projectCode, m.key, Sentinel, from, m.summary)
      && r.fs.files[t.file] == fs.files[t.file]
  {
    StopWhenIdle(t, fs, Sentinel, now);
    StartOnceStopped(t, fs, issues, projectCode, pattern, from, input, now);
  }

  /** With an entry open and a single match, `start` first closes the open
      entry at the clock's time in the day log, then opens the new one. */
  lemma StartClosesOpenEntry(t: Tracker, fs: Fs, issues: seq<Issue>, projectCode: string, pattern: string,
                             from: string, input: Option<nat>, now: ClockTime,
                             project: string, task: string, end: string, start: string, title: string)
    requires Valid(fs) && |t.file| >= 1 && ValidClock(now)
    requires t.file in fs.files && t.file != CurrentPath(t)
    requires CleanEntry(project, task, end, start, title)
    requires CurrentPath(t) in fs.files && fs.files[CurrentPath(t)] == EntryLine(project, task, end, start, title)
    requires !Rejected(FormatHHMM(now), start)
    requires |FuzzyFilter(issues, pattern)| == 1
    ensures var m := FuzzyFilter(issues, pattern)[0];
      var r := StartCommand(t, fs, Success(issues), projectCode, pattern, Sentinel, from, input, now);
      && r.result.Success?
      && r.fs.files[t.file] == fs.files[t.file] + EntryLine(project, task, FormatHHMM(now), start, title)
      && r.fs.files[CurrentPath(t)] == EntryLine(projectCode, m.key, Sentinel, from, m.summary)
  {
    assert fs.files[CurrentPath(t)] == EntryLine(project, task, end, start, title) + "";
    StopMovesOpenEntry(t, fs, Sentinel, now, project, task, end, start, title, "");
    StartOnceStopped(t, fs, issues, projectCode, pattern, from, input, now);
  }

  /** `start` is not atomic: with an entry open and a new entry that ends
      before it starts, the open entry is still closed into the day log
      before the new one is refused. */
  lemma StartTooEarlyStillStops(t: Tracker, fs: Fs, issues: seq<Issue>, projectCode: string, pattern: string,
                                till: string, from: string, input: Option<nat>, now: ClockTime,
                                project: string, task: string, end: string, start: string, title: string)
    requires Valid(fs) && |t.file| >= 1 && ValidClock(now)
    requires t.file in fs.files && t.file != CurrentPath(t)
    requires CleanEntry(project, task, end, start, title)
    requires CurrentPath(t) in fs.files && fs.files[CurrentPath(t)] == EntryLine(project, task, end, start, title)
    requires !Rejected(FormatHHMM(now), start)
    requires |FuzzyFilter(issues, pattern)| == 1 && Rejected(till, from)
    ensures var r := StartCommand(t, fs, Success(issues), projectCode, pattern, till, from, input, now);
      && r.result == Failure(CustomError(EndBeforeStartMessage))
      && t.file in r.fs.files && r.fs.files[t.file] == fs.files[t.file] + EntryLine(project, task, FormatHHMM(now), start, title)
      && CurrentPath(t) in r.fs.files && r.fs.files[CurrentPath(t)] == ""
  {
    assert fs.files[CurrentPath(t)] == EntryLine(project, task, end, start, title) + "";
    StopMovesOpenEntry(t, fs, Sentinel, now, project, task, end, start, title, "");
    assert Selection(FuzzyFilter(issues, pattern), input).Success?;
  }

  /** As written, with several matches and a number outside the list, `start`
      succeeds and opens an entry with an empty key and an empty summary. */
  lemma BlankPickOpens(t: Tracker, fs: Fs, issues: seq<Issue>, projectCode: string, pattern: string,
                       from: string, n: nat, now: ClockTime)
    requires Valid(fs) && |t.file| >= 1 && ValidClock(now)
    requires t.file in fs.files && CurrentPath(t) in fs.files && fs.files[CurrentPath(t)] == ""
    requires |FuzzyFilter(issues, pattern)| > 1 && !(1 <= n <= |FuzzyFilter(issues, pattern)|)
    ensures var r := StartCommand(t, fs, Success(issues), projectCode, pattern, Sentinel, from, Some(n), now);
      && r.result.Success? && Valid(r.fs)
      && r.fs.files == fs.files[CurrentPath(t) := EntryLine(projectCode, "", Sentinel, from, "")]
  {
    assert Selection(FuzzyFilter(issues, pattern), Some(n)) == Success(("", ""));
    StopWhenIdle(t, fs, Sentinel, now);
    TouchExisting(fs, CurrentPath(t));
    OpenOnEmptyCurrent(t, fs, projectCode, "", from, "");
  }

  /** As written, an out-of-range pick leaves `current.jj` holding a line of
      four words, which every later stop takes for no open task: the entry is
      never closed into the day log. */
  lemma OutOfRangePickStaysOpen(t: Tracker, fs: Fs, issues: seq<Issue>, projectCode: string, pattern: string,
                                from: string, n: nat, at: string, now: ClockTime)
    requires Valid(fs) && |t.file| >= 1 && ValidClock(now)
    requires t.file in fs.files && CurrentPath(t) in fs.files && fs.files[CurrentPath(t)] == ""
    requires |FuzzyFilter(issues, pattern)| > 1 && !(1 <= n <= |FuzzyFilter(issues, pattern)|)
    requires IsBareField(projectCode) && IsBareField(from)
    ensures var r := StartCommand(t, fs, Success(issues), projectCode, pattern, Sentinel, from, Some(n), now);
      && r.result.Success?
      && CurrentPath(t) in r.fs.files && r.fs.files[CurrentPath(t)] == EntryLine(projectCode, "", Sentinel, from, "")
      && StopCurrent(t, r.fs, at, now) == Effect(r.fs, Success(()))
  {
    BlankPickOpens(t, fs, issues, projectCode, pattern, from, n, now);
    var r := StartCommand(t, fs, Success(issues), projectCode, pattern, Sentinel, from, Some(n), now);
    BlankEntryStaysOpen(t, fs, r.fs, projectCode, from, at, now);
  }

  /** The failing example: with two issues in progress, the empty pattern,
      and `5` typed at the prompt, `start` opens `PROJ  -1 0900 ""`, which no
      stop closes. */
  lemma OutOfRangePickExample(t: Tracker, fs: Fs, issues: seq<Issue>, at: string, now: ClockTime)
    requires Valid(fs) && |t.file| >= 1 && ValidClock(now)
    requires t.file in fs.files && CurrentPath(t) in fs.files && fs.files[CurrentPath(t)] == ""
    requires |issues| == 2 && forall i :: 0 <= i < |issues| ==> Matches(issues[i], "")
    ensures var r := StartCommand(t, fs, Success(issues), "PROJ", "", Sentinel, "0900", Some(5), now);
      && r.result.Success?
      && CurrentPath(t) in r.fs.files && r.fs.files[CurrentPath(t)] == "PROJ  -1 0900 \"\"\n"
      && StopCurrent(t, r.fs, at, now) == Effect(r.fs, Success(()))
  {
    FilterKeepsAllMatches(issues, "");
    BlankExampleLine();
    OutOfRangePickStaysOpen(t, fs, issues, "PROJ", "", "0900", 5, at, now);
  }

  lemma BlankExampleLine()
    ensures IsBareField("PROJ") && IsBareField("0900")
    ensures EntryLine("PROJ", "", Sentinel, "0900", "") == "PROJ  -1 0900 \"\"\n"
  {
    assert "PROJ" == ['P', 'R', 'O', 'J'];
    assert "0900" == ['0', '9', '0', '0'];
  }

  /** Any file system whose `current.jj` holds just the blank-task entry is
      left untouched by a stop. */
  lemma BlankEntryStaysOpen(t: Tracker, fs: Fs, after: Fs, projectCode: string, from: string,
                            at: string, now: ClockTime)
    requires Valid(after) && |t.file| >= 1 && ValidClock(now)
    requires IsBareField(projectCode) && IsBareField(from)
    requires after.files == fs.files[CurrentPath(t) := EntryLine(projectCode, "", Sentinel, from, "")]
    ensures CurrentPath(t) in after.files && after.files[CurrentPath(t)] == EntryLine(projectCode, "", Sentinel, from, "")
    ensures StopCurrent(t, after, at, now) == Effect(after, Success(()))
  {
    assert after.files[CurrentPath(t)] == EntryLine(projectCode, "", Sentinel, from, "") + "";
    BlankTaskEntryIsIdle(t, after, at, now, projectCode, from, "");
  }

  /** With a single match and a stop that leaves `current.jj` empty, `start`
      writes the new entry there and leaves every other file as the stop left it. */
  lemma StartOnceStopped(t: Tracker, fs: Fs, issues: seq<Issue>, projectCode: string, pattern: string,
                         from: string, input: Option<nat>, now: ClockTime)
    requires Valid(fs) && |t.file| >= 1 && ValidClock(now)
    requires |FuzzyFilter(issues, pattern)| == 1
    requires var stopped := StopCurrent(t, fs, Sentinel, now);
      stopped.result.Success? && t.file in stopped.fs.files && stopped.fs.files[CurrentPath(t)] == ""
    ensures var m := FuzzyFilter(issues, pattern)[0];
      var stopped := StopCurrent(t, fs, Sentinel, now);
      var r := StartCommand(t, fs, Success(issues), projectCode, pattern, Sentinel, from, input, now);
      && r.result.Success?
      && r.fs.files == stopped.fs.files[CurrentPath(t) := EntryLine(projectCode, m.key, Sentinel, from, m.summary)]
      && r.fs.files[CurrentPath(t)] == EntryLine(projectCode, m.key, Sentinel, from, m.summary)
      && (t.file != CurrentPath(t) ==> r.fs.files[t.file] == stopped.fs.files[t.file])
  {
    var m := FuzzyFilter(issues, pattern)[0];
    var stopped := StopCurrent(t, fs, Sentinel, now);
    StartWithOneMatch(t, fs, issues, projectCode, pattern, Sentinel, from, input, now);
    OpenOnEmptyCurrent(t, stopped.fs, projectCode, m.key, from, m.summary);
  }

  /** Opening an entry when `current.jj` exists and is empty makes it that entry. */
  lemma OpenOnEmptyCurrent(t: Tracker, fs: Fs, project: string, task: string, start: string, title: string)
    requires Valid(fs) && |t.file| >= 1 && t.file in fs.files
    requires CurrentPath(t) in fs.files && fs.files[CurrentPath(t)] == ""
    ensures var r := CreateEntry(t, fs, project, task, Sentinel, start, title);
      && r.result.Success?
      && r.fs.files == fs.files[CurrentPath(t) := EntryLine(project, task, Sentinel, start, title)]
  {
    assert "" + EntryLine(project, task, Sentinel, start, title) == EntryLine(project, task, Sentinel, start, title);
  }

  /** With a single match, `start` stops the open task and logs that match. */
  lemma StartWithOneMatch(t: Tracker, fs: Fs, issues: seq<Issue>, projectCode: string, pattern: string,
                          till: string, from: string, input: Option<nat>, now: ClockTime)
    requires Valid(fs) && |t.file| >= 1 && ValidClock(now)
    requires |FuzzyFilter(issues, pattern)| == 1
    ensures var m := FuzzyFilter(issues, pattern)[0];
      var stopped := StopCurrent(t, fs, Sentinel, now);
      StartCommand(t, fs, Success(issues), projectCode, pattern, till, from, input, now)
        == if stopped.result.Failure? then stopped else CreateEntry(t, stopped.fs, projectCode, m.key, till, from, m.summary)
  {
  }

  /** With several matches, `start` logs the issue at the position the user
      typed, counting from 1. */
  lemma StartWithPick(t: Tracker, fs: Fs, issues: seq<Issue>, projectCode: string, pattern: string,
                      till: string, from: string, n: nat, now: ClockTime)
    requires Valid(fs) && |t.file| >= 1 && ValidClock(now)
    requires |FuzzyFilter(issues, pattern)| > 1 && 1 <= n <= |FuzzyFilter(issues, pattern)|
    ensures var m := FuzzyFilter(issues, pattern)[n - 1];
      var stopped := StopCurrent(t, fs, Sentinel, now);
      StartCommand(t, fs, Success(issues), projectCode, pattern, till, from, Some(n), now)
        == if stopped.result.Failure? then stopped else CreateEntry(t, stopped.fs, projectCode, m.key, till, from, m.summary)
  {
    SelectionPicks(FuzzyFilter(issues, pattern), n);
  }

  lemma SelectionPicks(matches: seq<Issue>, n: nat)
    requires |matches| > 1 && 1 <= n <= |matches|
    ensures Selection(matches, Some(n)) == Success((matches[n - 1].key, matches[n - 1].summary))
  {
  }

  // ---------------------------------------------------------------- set

  const InvalidDateMessage := "invalid time format. Support only YYYY-MM-DD"
  const TimeVariable := "JIRED_CURRENT_TIME"

  /** The date shape `set` accepts: `DDDD-DD-DD`. */
  predicate IsDateShape(s: string) {
    && |s| == 10 && s[4] == '-' && s[7] == '-'
    && forall i :: 0 <= i < 10 && i != 4 && i != 7 ==> IsDigit(s[i])
  }

  /** One position of a regular expression made of single-character atoms. */
  datatype Atom = AnyDigit | Literal(c: char)

  /** `^\d{4}-\d{2}-\d{2}$`, with the repetitions written out. */
  const DatePattern: seq<Atom> :=
    [AnyDigit, AnyDigit, AnyDigit, AnyDigit, Literal('-'), AnyDigit, AnyDigit, Literal('-'), AnyDigit, AnyDigit]

  predicate AtomMatches(a: Atom, c: char) {
    match a
    case AnyDigit => IsDigit(c)
    case Literal(l) => c == l
  }

  /** An anchored match of the whole string. */
  predicate FullMatch(pattern: seq<Atom>, s: string)
    decreases |s|
  {
    if |pattern| == 0 then |s| == 0
    else |s| > 0 && AtomMatches(pattern[0], s[0]) && FullMatch(pattern[1..], s[1..])
  }

  lemma {:induction false} FullMatchPointwise(pattern: seq<Atom>, s: string)
    ensures FullMatch(pattern, s) <==> |s| == |pattern| && forall i :: 0 <= i < |s| ==> AtomMatches(pattern[i], s[i])
    decreases |s|
  {
    if |pattern| > 0 && |s| > 0 {
      FullMatchPointwise(pattern[1..], s[1..]);
      if |s| == |pattern| && forall i :: 0 <= i < |s| ==> AtomMatches(pattern[i], s[i]) {
        assert forall i :: 0 <= i < |s[1..]| ==> AtomMatches(pattern[1..][i], s[1..][i]) by {
          forall i | 0 <= i < |s[1..]| ensures AtomMatches(pattern[1..][i], s[1..][i]) {
            assert AtomMatches(pattern[i + 1], s[i + 1]);
          }
        }
      }
      if FullMatch(pattern, s) {
        forall i | 0 <= i < |s| ensures AtomMatches(pattern[i], s[i]) {
          if i > 0 {
            assert AtomMatches(pattern[1..][i - 1], s[1..][i - 1]);
          }
        }
      }
    }
  }

  /** The regular expression accepts exactly the date-shaped strings. */
  lemma DateShapeIsPattern(s: string)
    ensures FullMatch(DatePattern, s) <==> IsDateShape(s)
  {
    FullMatchPointwise(DatePattern, s);
    if IsDateShape(s) {
      forall i | 0 <= i < |s| ensures AtomMatches(DatePattern[i], s[i]) {
      }
    }
  }

  /** The `set` arm: the line it prints for the operating system `os`
      (`None` on any other system), or an error for a badly shaped date. */
  function SetCommand(date: string, os: string): (r: Result<Option<string>, Error>)
    ensures r.Failure? <==> !FullMatch(DatePattern, date)
    ensures r.Failure? ==> r.error == CustomError(InvalidDateMessage)
    ensures r.Success? && (os == "linux" || os == "macos") ==> r.value == Some("export " + TimeVariable + "=" + date)
    ensures r.Success? && os == "windows" ==> r.value == Some("set " + TimeVariable + "=" + date)
    ensures r.Success? && os != "linux" && os != "macos" && os != "windows" ==> r.value == None
  {
    DateShapeIsPattern(date);
    if !IsDateShape(date) then Failure(CustomError(InvalidDateMessage))
    else if os == "linux" || os == "macos" then Success(Some("export " + TimeVariable + "=" + date))
    else if os == "windows" then Success(Some("set " + TimeVariable + "=" + date))
    else Success(None)
  }

  /** The printed line assigns the date to `JIRED_CURRENT_TIME`: the text
      before its first `=` ends with the variable's name, and the text after
      it is the date. */
  lemma SetLineAssignsDate(date: string, os: string)
    requires SetCommand(date, os).Success? && SetCommand(date, os).value.Some?
    ensures var line := SetCommand(date, os).value.value;
      var name := TakeUntil(line, '=');
      && |name| >= |TimeVariable| && name[|name| - |TimeVariable|..] == TimeVariable
      && line == name + "=" + date
  {
    var command := if os == "windows" then "set " else "export ";
    var name := command + TimeVariable;
    NoEqualsInCommands();
    assert '=' !in name by {
      assert forall c :: c in name ==> c in command || c in TimeVariable;
    }
    assert SetCommand(date, os).value.value == name + ("=" + date);
    assert ("=" + date)[0] == '=';
    TakeUntilConcat(name, "=" + date, '=');
  }

  lemma NoEqualsInCommands()
    ensures '=' !in TimeVariable && '=' !in "set " && '=' !in "export "
  {
  }

  /** The dates the tracker names its day logs with (years 0 to 9999) are
      the ones `set` accepts. */
  lemma DateTextIsAccepted(d: Date, os: string)
    requires ValidDate(d) && 0 <= d.year <= 9999
    ensures SetCommand(DateText(d), os).Success?
  {
    var s := DateText(d);
    PadDecimalWidth(d.year, 4);
    var y := PadDecimal(d.year, 4);
    assert s == y + "-" + Pad2(d.month) + "-" + Pad2(d.day);
    assert IsDateShape(s) by {
      forall i | 0 <= i < 10 && i != 4 && i != 7 ensures IsDigit(s[i]) {
        if i < 4 {
          assert s[i] == y[i];
        } else if i < 7 {
          assert s[i] == Pad2(d.month)[i - 5];
        } else {
          assert s[i] == Pad2(d.day)[i - 8];
        }
      }
    }
    DateShapeIsPattern(s);
  }
}
