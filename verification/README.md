# jired time-entry store, in Dafny

jired is a command-line time tracker that logs work against Jira tickets.
This project models its local store, `src/common/tracker.rs`. The store keeps
one append-only day log, `<YYYY-MM-DD>.jj`, under `<data dir>/jired/`. Beside
the day log sits `current.jj`, which holds the single entry still open (its
end is the sentinel `-1`).

The model covers these parts of the store:

- the line `create_entry` writes;
- its end-before-start check;
- where each entry is routed;
- the `stop_current` state machine, which splits the open line with shell-word rules and moves the entry to the day log;
- `read`;
- the idempotent creation in `with_path_and_config`;
- the path built by `new`;
- `format_24_hrs`, which converts a local `HHMM` into an RFC 3339 UTC timestamp (section 5.6 of RFC 3339), rolling over the day when needed.

Beyond the store, the project models these pieces of `src/boards/jira.rs`:

- the names of the keyring secrets and `logout`;
- the issue-search URL, percent-encoded per sections 2.1 and 2.3 of RFC 3986;
- the `fuzzy_search` filter;
- `pick_issue`'s choice;
- the `start`, `stop` and `set` commands over the tracker.

It also models the wrap-around cursor of the terminal selector, `internal/tui/list.go`.

The file system is an immutable value: a map from path to file contents plus a
set of directories. Each operation returns the new file system together with
its result, so writes made before an error stay visible. Three things are
parameters:

- the clock (`now`, an `HHMM` clock time);
- the reference date;
- whatever the network or the user supplies (the fetched issues, the number typed at the prompt).

Files:

| file | module | contents |
|---|---|---|
| wrappers.dfy | `Wrappers` | `Option`, `Result` |
| text.dfy | `Text` | digits, decimal numerals, string order, ASCII case mapping, substring search |
| shell_words.dfy | `ShellWords` | the shell-words `split` state machine the store uses to read entries back |
| file_system.dfy | `FileSystem` | the abstract file system, `OpenOptions`, `create_dir_all`, `read_line`, `lines()` |
| errors.dfy | `Errors` | the error type |
| time_format.dfy | `TimeFormat` | calendar, instants, `HHMM` parsing, `format_24_hrs` |
| tracker.dfy | `TrackerStore` | the store's operations |
| tracker_properties.dfy | `TrackerProperties` | round-trip and state-machine lemmas about the store |
| percent_encoding.dfy | `PercentEncoding` | UTF-8 and `urlencoding::encode`, with a decoder |
| jira.dfy | `Jira` | secrets, search URL, issue filter, `start` / `stop` / `set` |
| selector.dfy | `Selector` | `SelectorModel`, `initialModel`, `Update` |

## Model

| member | source | states |
|---|---|---|
| TrackerStore.CreateEntry | src/common/tracker.rs:45-89 | Rejects an entry whose end sorts before its start, unless the end is `-1`, and then writes nothing. Otherwise it needs the day log to exist and, for an open entry, `current.jj` to be creatable; the error cases leave the files as they were. On success, exactly the target file changes, growing by the one entry line: `current.jj` for end `-1`, the day log for any other end. |
| TrackerStore.CurrentPath | src/common/tracker.rs:91-100 | `current.jj` lies in the same directory as the day log. |
| TrackerStore.StopTime | src/common/tracker.rs:126-132 | The contract states only that the end given to the stopped entry is never the sentinel `-1`. The choice itself, `at` or else the clock's `HHMM`, holds by definition. |
| TrackerStore.StopCurrent | src/common/tracker.rs:104-152 | Opening `current.jj` creates it. If it cannot be opened, nothing changes. An unbalanced quote is propagated as the split error. A first line of other than five words returns Ok with only the creation done. On five words, the stop time is checked against word 3: too early is "End time must be later than start time." with only the creation done. Otherwise it succeeds exactly when the day log exists. The day log then gains the line built from words 0, 1, the stop time, 3 and 4, and `current.jj` is emptied; a failure keeps the created `current.jj` and changes nothing else. |
| TrackerStore.Read | src/common/tracker.rs:155-167 | Succeeds exactly when the day log exists, and then returns the `lines()` reading of its contents (split at each newline, with one `\r` before a newline dropped). A failure carries the kind `open` reports: `IsADirectory` for a directory, `NotADirectory` for a path below a regular file, and `NotFound` for a missing path. |
| TrackerStore.WithPathAndConfig | src/common/tracker.rs:182-197 | An existing path changes nothing. Otherwise the missing parent directories, all prefixes of the path, are created and then the empty file. It fails, with a tracker error and no change, exactly when a file blocks the directory chain. |
| TrackerStore.LogPath | src/common/tracker.rs:24-33 | The day log is `<data dir>/jired/<date>.jj`: the data directory followed by exactly the two components `jired` and `<date>.jj`. |
| TrackerProperties.DaysShareCurrentFile | src/common/tracker.rs:24-100 | Different reference dates give different day logs, and every day's tracker uses the same `<data dir>/jired/current.jj`. |
| TrackerStore.New | src/common/tracker.rs:23-42 | No data directory is the error "Failed to get data dir". Otherwise the tracker is bound to the day log path, which then exists. |
| TrackerProperties.EntryLineSplits | src/common/tracker.rs:80-118 | Splitting a written line with shell-word rules gives back `[project, task, end, start, title]`. This holds when the four leading fields are nonempty, contain no blank, quote or backslash and do not start with `#`, and the title has no `"`, `\` or newline. |
| TrackerProperties.CleanEntryHasNoNewline | src/common/tracker.rs:80-83 | A clean entry's text holds no newline, so it occupies exactly one line. |
| TrackerProperties.OpenEntryReadsBack | src/common/tracker.rs:114-118 | When `current.jj` starts with a clean entry line, `stop_current` reads back exactly that entry's five fields. |
| TrackerProperties.OpenEntryAvoidsDayLog | src/common/tracker.rs:71-78 | An entry with end `-1` never changes the day log. |
| TrackerProperties.RejectionIsClockOrder | src/common/tracker.rs:57 | For four-digit times, the string comparison rejects exactly when the end's number is smaller than the start's. |
| TrackerProperties.ClosedEntryAddsOneLine | src/common/tracker.rs:80-167 | For a clean entry (four bare fields and a title without `"`, `\` or newline), and a day log that is empty or ends with a newline, a closed entry grows `read`'s result by exactly its line and leaves the earlier lines untouched. |
| TrackerProperties.StopMovesOpenEntry | src/common/tracker.rs:126-150 | Stopping an open entry writes tokens 0, 1, 3 and 4 to the day log with the new end in place of the stored `-1`. It appends to the day log before emptying `current.jj`, and `current.jj` is left existing but empty. |
| TrackerProperties.StopTooEarlyKeepsOpenEntry | src/common/tracker.rs:134-141 | A stop time before the entry's start is refused, and `current.jj` keeps the open entry. |
| TrackerProperties.StopWhenIdle | src/common/tracker.rs:121-123 | With `current.jj` empty or missing, `stop_current` succeeds. Its only effect is that `current.jj` now exists (empty), so no existing file changes. |
| TrackerProperties.OtherWordCountIsIdle | src/common/tracker.rs:114-123 | When the first line of `current.jj` is any number of bare words other than five, `stop_current` returns Ok and changes nothing, whatever follows that line. |
| TrackerProperties.StrayWordIsIdle | src/common/tracker.rs:121-123 | The example `current.jj` holding the single word `garbage` is treated as idle: Ok, nothing changes. |
| TrackerProperties.BlankTaskEntryIsIdle | src/common/tracker.rs:80-123 | A `current.jj` whose first line is an open entry with an empty task and an empty title splits into four words, so `stop_current` returns Ok and changes nothing. |
| TrackerProperties.UnclosedQuoteIsError | src/common/tracker.rs:114-118 | When the first line of `current.jj` is bare words followed by a `"` that is never closed on that line, `stop_current` fails with "missing closing quote" and changes nothing, whatever follows. |
| TrackerProperties.UnbalancedQuoteIsError | src/common/tracker.rs:117-118 | The example `current.jj` holding `a "b` and a newline makes `stop_current` fail with "missing closing quote". |
| TrackerProperties.StartThenStop | src/common/tracker.rs:71-150 | Opening an entry and then stopping it adds exactly the closed entry to the day log and leaves `current.jj` empty. |
| TrackerProperties.StartThenStopOnEmptyLog | src/common/tracker.rs:71-167 | On an empty day log, `read` after an open-then-stop returns exactly the one closed entry. |
| TrackerProperties.ClosedEntryOnEmptyLog | src/common/tracker.rs:80-86 | A closed entry written to an empty day log makes the log that one line. |
| TrackerProperties.UnitTestLine | src/common/tracker.rs:251-275 | The unit test's entry writes `proj PROJ-3 1234 1130 "Task title"` and a newline to an empty log. |
| TrackerProperties.FixBugScenario | src/common/tracker.rs:71-167 | Opening `PROJ T-1` at 0900 and stopping it at 1700 leaves the log reading `PROJ T-1 1700 0900 "Fix bug"`, with `current.jj` empty. |
| TrackerProperties.QuoteInTitleBreaksStop | src/common/tracker.rs:80-118 | Opening an entry titled `a"b` succeeds, and a later stop then fails with "missing closing quote", leaving `current.jj` as it was. |
| TrackerProperties.EscapedEntryLineSplits | src/common/tracker.rs:80-118 | With the title escaped, a written line splits back into its five fields for every title. |
| TrackerProperties.EscapedEntryReadsBack | src/common/tracker.rs:114-118 | A `current.jj` starting with an escaped entry line reads back as the entry's five fields, for any title without a newline. |
| TrackerProperties.QuoteInTitleEscaped | src/common/tracker.rs:114-118 | The title `a"b`, escaped, reads back intact. |
| TrackerProperties.WithPathAndConfigIdempotent | src/common/tracker.rs:183-191 | A second `with_path_and_config` on the same path changes nothing and returns the same result. |
| ShellWords.UnquotedInputSplits | src/common/tracker.rs:117-118 | Input without quote characters always splits successfully, whatever the state outside quotes. |
| ShellWords.SplitFailsOnlyOnQuotes | src/common/tracker.rs:117-118 | `split` fails only on input containing a `'` or `"`. |
| ShellWords.BareFieldSplits | src/common/tracker.rs:117-118 | A bare field followed by a blank becomes one word. |
| ShellWords.QuotedFieldSplits | src/common/tracker.rs:117-118 | A double-quoted field without `"` or `\`, followed by a blank, becomes one word without its quotes. |
| ShellWords.EscapedFieldSplits | src/common/tracker.rs:117-118 | Any field, with `"` and `\` escaped and written between double quotes, followed by a blank, becomes one word equal to the field. |
| FileSystem.OpenAppend | src/common/tracker.rs:63-77 | Opening succeeds exactly on an existing file, or, with `create`, on a path whose parent is a directory and which is not itself one. With `create`, a missing file is made empty; nothing else changes. A failure is `IsADirectory` on a directory, `NotADirectory` below a regular file, and `NotFound` otherwise. |
| FileSystem.OpenBelowFile | src/common/tracker.rs:63-77 | Any path strictly below a regular file fails to open as `NotADirectory`, with or without `create`. |
| FileSystem.OpenTruncate | src/common/tracker.rs:146-150 | Truncating succeeds exactly on an existing file and empties only that file. It fails with the same kinds as opening for append. |
| FileSystem.CreateDirAll | src/common/tracker.rs:184-188 | Succeeds exactly when no regular file lies on the path or above it. Files are untouched, directories only grow, and every new directory is a prefix of the path. A regular file at the path itself fails as `AlreadyExists`, one above it as `NotADirectory`. |
| FileSystem.ReadLineOfFirst | src/common/tracker.rs:114-115 | `read_line` returns the first line together with its newline. |
| FileSystem.AppendAddsOneLine | src/common/tracker.rs:160-164 | Appending a line and its newline to newline-terminated text adds exactly that line to `lines()`. |
| FileSystem.LinesConcat | src/common/tracker.rs:160-164 | `lines()` of newline-terminated text followed by more text is the concatenation of the two line lists. |
| TimeFormat.ReadClock | src/common/tracker.rs:209-218 | A success is a valid clock time whose hour is the `u32` value of characters 0..2 and whose minute is that of 2..4. "Error parsing time" is returned exactly when one pair does not parse. When both parse, it succeeds exactly when the hour is below 24 and the minute below 60, and fails otherwise with "invalid time components". |
| TimeFormat.ClockTextRoundTrip | src/common/tracker.rs:209-218 | Reading back the `%H%M` text of any clock time gives that time. |
| TimeFormat.LocalToUtc | src/common/tracker.rs:220-233 | Succeeds exactly when the clock text is valid. The UTC instant shifted forward by the offset is the local date and time. |
| TimeFormat.FormatTwentyFourHours | src/common/tracker.rs:200-237 | Succeeds exactly when the clock text is valid, with the same error otherwise. A success is the RFC 3339 text of the UTC instant that `LocalToUtc` pins down. |
| TimeFormat.Rfc3339Shape | src/common/tracker.rs:232-236 | For a year from 0 to 9999 the timestamp is the 25 characters `YYYY-MM-DDTHH:MM:SS+00:00`, and its six digit fields read back as the instant's year, month, day, hour, minute and second. |
| TimeFormat.FormatWithoutOffset | src/common/tracker.rs:201-236 | With no offset configured, the result is `<date>T<HH>:<MM>:00+00:00`. |
| TimeFormat.IndiaMorningExample | src/common/tracker.rs:222-236 | `0930` at +5:30 on 2024-01-01 is `2024-01-01T04:00:00+00:00`. |
| TimeFormat.PreviousDayExample | src/common/tracker.rs:222-236 | `0100` at +5:30 on 2024-01-01 rolls back to `2023-12-31T19:30:00+00:00`. |
| TimeFormat.NextDayExample | src/common/tracker.rs:222-236 | `2330` at -2:00 on 2024-12-31 rolls forward to `2025-01-01T01:30:00+00:00`. |
| TimeFormat.NextPrevInverse | src/common/tracker.rs:228-229 | Stepping a valid date forward one day and back one day, in either order, returns it. |
| TimeFormat.AddDaysCompose | src/common/tracker.rs:228-229 | Moving by `a` days and then `b` days is moving by `a + b` days. |
| TimeFormat.ShiftCompose | src/common/tracker.rs:228-229 | Shifting an instant by `a` seconds and then `b` seconds is shifting it by `a + b`. |
| Text.LexLessIsNumericOrder | src/common/tracker.rs:57 | On equal-length digit strings, Rust's string order is numeric order. |
| PercentEncoding.Encode | src/boards/jira.rs:53 | The encoded text holds only unreserved characters, `%` and upper-case hexadecimal digits. |
| PercentEncoding.DecodeEncode | src/boards/jira.rs:53 | Percent-decoding the encoded bytes gives them back. |
| Jira.SecretsEnumerated | src/boards/jira.rs:16-29 | The iteration visits every variant, and different variants have different key names. |
| Jira.Logout | src/boards/jira.rs:296-302 | Removes exactly the keys `Username`, `JiraApiToken`, `AccountId` and `Server`, and keeps every other entry with its value. |
| Jira.JqlRaw | src/boards/jira.rs:43-50 | The JQL is `assignee=`, the account id verbatim, ` and project=`, then the project code upper-cased, with no lower-case ASCII letter left in it. |
| Jira.SearchUrl | src/boards/jira.rs:40-58 | The URL starts `https://<server>/rest/api/3/search?jql=` and ends `&fields=key,summary,statusCategory&maxResults=50`. |
| Jira.SearchUrlCarriesJql | src/boards/jira.rs:43-58 | The `jql` parameter, read up to the next `&`, percent-decodes to the UTF-8 bytes of `assignee=<account> and project=<PROJECT>`. |
| Jira.FuzzyFilter | src/boards/jira.rs:309-323 | Keeps exactly the issues whose lower-cased summary contains the pattern verbatim and whose status name is the string "In Progress". The result is an order-preserving subsequence of the fetched issues, and each matching issue occurs in it as many times as among the fetched ones. |
| Jira.FilterKeepsAllMatches | src/boards/jira.rs:313-323 | When every issue matches, all are kept, in order. |
| Jira.FilterDropsAllMismatches | src/boards/jira.rs:313-323 | When no issue matches, none is kept. |
| Jira.UppercasePatternMatchesNothing | src/boards/jira.rs:320 | The pattern is not lower-cased, so one holding an upper-case letter matches no issue. |
| Jira.CheckedPick | src/boards/jira.rs:200-220 | The pick as evidently intended: it succeeds exactly on a number within the list, and every other input is "Please enter a valid number". |
| Jira.CheckedPickAgrees | src/boards/jira.rs:200-220 | Where the checked pick succeeds, `pick_issue` picks the same issue. Where it refuses a parsed number, `pick_issue` picks two empty strings. |
| Jira.CheckedPickEntryCloses | src/boards/jira.rs:118-147 | With well-formed keys and summaries, the entry opened for a checked pick splits back into its five words, so a later stop closes it. |
| Jira.BlankPickOpens | src/boards/jira.rs:118-147 | With several matches and a number outside the list, `start` as written succeeds and makes `current.jj` the entry with an empty key and an empty summary. |
| Jira.OutOfRangePickStaysOpen | src/boards/jira.rs:118-147 | As written, after such a pick, `current.jj` holds the blank entry line and every later stop returns Ok without changing anything, so the entry never reaches the day log. |
| Jira.OutOfRangePickExample | src/boards/jira.rs:118-147 | With two issues in progress, the empty pattern and `5` typed at the prompt, `start` opens `PROJ  -1 0900 ""` and a later stop leaves it in place. |
| Jira.BlankEntryStaysOpen | src/boards/jira.rs:152-159 | A `current.jj` holding just the blank entry line is left untouched by a stop. |
| Jira.StartCommand | src/boards/jira.rs:94-148 | A failed search, an empty result ("There are no tickets matching your search") and a failed pick leave the files untouched. A failed stop is returned as it is. A success means `stop_current("-1")` succeeded first, and then the one entry line `<project> <key> <till> <from> "<summary>"` of the chosen issue is added to the file `till` routes to. The chosen issue is the only match, or else the one `pick_issue` returns. When the stop succeeds but creating the entry fails, the files are those the stop left. When `till` sorts before `from`, that failure is "End time must be later than start time." |
| Jira.StartTooEarlyStillStops | src/boards/jira.rs:135-147 | With an entry open and `till` before `from`, `start` still closes the open entry into the day log and empties `current.jj`, and then fails with "End time must be later than start time." |
| Jira.StartWithPick | src/boards/jira.rs:118-147 | With several matches and number `n` typed within the list, `start` stops the open task, then creates the entry for the n-th match. |
| Jira.StartWithOneMatch | src/boards/jira.rs:118-147 | With one match, `start` stops the open task, then creates the entry for that match with `till` as end and `from` as start. |
| Jira.StartFromIdle | src/boards/jira.rs:127-147 | From idle, `start` with till `-1` leaves exactly the new entry open in `current.jj` and the day log unchanged. |
| Jira.StartClosesOpenEntry | src/boards/jira.rs:135-147 | With an entry open, `start` first closes it at the clock's `HHMM` in the day log, then makes the new entry the only content of `current.jj`. |
| Jira.OpenOnEmptyCurrent | src/boards/jira.rs:139-147 | Creating an open entry when `current.jj` is empty makes it exactly that entry's line. |
| Jira.StopCommand | src/boards/jira.rs:152-159 | Without `--at` the sentinel `-1` is passed; with it, `at` is passed verbatim. |
| Jira.StopCommandCloses | src/boards/jira.rs:152-159 | `stop` closes the open entry at `--at` verbatim, or at the clock's `HHMM` when it is absent. |
| Jira.FullMatchPointwise | src/boards/jira.rs:161-164 | An anchored match of single-character atoms has the pattern's length and matches position by position. |
| Jira.DateShapeIsPattern | src/boards/jira.rs:161-164 | `^\d{4}-\d{2}-\d{2}$` accepts exactly ten characters: digits, with `-` at positions 4 and 7. |
| Jira.SetCommand | src/boards/jira.rs:160-185 | Fails with "invalid time format. Support only YYYY-MM-DD" exactly when the date does not match. Otherwise it prints `export JIRED_CURRENT_TIME=<date>` on linux and macos, `set JIRED_CURRENT_TIME=<date>` on windows, and nothing elsewhere. |
| Jira.SetLineAssignsDate | src/boards/jira.rs:174-179 | In the printed line, the text before the first `=` ends with `JIRED_CURRENT_TIME` and the text after it is the date. |
| Jira.DateTextIsAccepted | src/boards/jira.rs:161-164 | Every date with a year from 0 to 9999, written `YYYY-MM-DD` as the day log is named, passes the check. |
| Selector.InitialModel | internal/tui/list.go:18-23 | Starts at cursor 0, not quit, with the given title and options. |
| Selector.Update | internal/tui/list.go:29-63 | Never changes the title or options. It quits exactly on `ctrl+c`, `q` or `enter`, and only `ctrl+c` and `q` set the quit flag. Quitting leaves the cursor where it was. |
| Selector.DownWraps | internal/tui/list.go:51-58 | On a cursor within `n ≥ 1` options, `down`/`j` moves it to `(cursor+1) mod n`. |
| Selector.UpWraps | internal/tui/list.go:43-49 | On a cursor within `n ≥ 1` options, `up`/`k` moves it to `(cursor-1+n) mod n`. |
| Selector.UpUndoesDown | internal/tui/list.go:43-58 | On a cursor within range, one step up undoes one step down, and the other way round. |
| Selector.UpOnEmptyList | internal/tui/list.go:43-49 | With no options, `up` from the start leaves the cursor at -1. |
| Selector.OtherMessagesChangeNothing | internal/tui/list.go:29-63 | Any other key, and any message that is not a key, returns the model unchanged and no command. |
| Selector.UpdateKeepsRange | internal/tui/list.go:29-63 | Every message keeps a cursor within range there. |
| Selector.RunKeepsRange | internal/tui/list.go:29-63 | A cursor within range stays there through any sequence of messages. |
| Selector.SessionStaysInRange | internal/tui/list.go:18-63 | From `initialModel` over a non-empty list, the cursor is always on an option. |

## Findings

| source | as written | input that shows it | evidently intended | confidence | as-written member | corrected member |
|---|---|---|---|---|---|---|
| src/common/tracker.rs:80-83 | `create_entry` writes the title between double quotes without escaping it. | Opening an entry titled `a"b` (a Jira summary can hold a `"`) writes `P T-1 -1 0900 "a"b"`. Every later stop or start fails with "missing closing quote" until `current.jj` is edited by hand. | Escape `"` and `\` with a backslash inside the quotes, so that `shell_words::split` gives the title back. | not executed | TrackerProperties.QuoteInTitleBreaksStop | TrackerProperties.EscapedEntryLineSplits |
| src/boards/jira.rs:212-215 | `pick_issue` checks only that the typed text parses as a number. A number outside the list falls back to two empty strings. | With two matches for project `PROJ` from `0900`, typing `5` opens `PROJ  -1 0900 ""`. Splitting that line gives four words, so every later `stop` returns Ok without closing the entry, and the time is never logged. | Refuse a number outside the list with "Please enter a valid number", as for text that does not parse. | not executed | Jira.OutOfRangePickStaysOpen | Jira.CheckedPickEntryCloses |

`TrackerStore.EscapedEntryLine` is the corrected line. `EscapedEntryReadsBack` and `QuoteInTitleEscaped` show that `stop_current` would then read the failing example back intact. The store's operations keep the line as written, since they model the program's behaviour. A title holding a newline still cannot be stored on one line in either form.

`Jira.OutOfRangePickExample` is that input. `Jira.CheckedPick` is the corrected pick, and `CheckedPickAgrees` relates it to `pick_issue`. `Jira.StartCommand` keeps the pick as written, since it models the program's behaviour.

## Left out

- The asynchronous file I/O of tokio is a sequential, atomic function on an immutable file system. Writes cannot fail halfway, and flushing is part of the write.
- The store has no concurrency and no locking, so neither is modelled.
- TrackerStore.New: the reference date is passed in as text, not split into path components. The `JIRED_CURRENT_TIME` variable and `chrono::Local::now` are not read.
- TrackerStore.New: the TOML configuration loading is not modelled; the `Config` value is a parameter. `src/common/config.rs` is not part of this model.
- TimeFormat.FormatTwentyFourHours: the date is a parsed, valid `Date` parameter. The "Error parsing time" that a malformed `JIRED_CURRENT_TIME` date produces is not modelled.
- TimeFormat.FormatTwentyFourHours: the precondition asks for a clock text of at least four characters whose first four are ASCII. The source panics on the `time_str[0..2]` and `[2..4]` slices when these do not fall on character boundaries, and that panic is not modelled. The precondition also excludes some inputs that do not panic. An example is `"é12"`: it is four bytes, both slices fall on character boundaries, and the source returns "Error parsing time".
- FileSystem.ReadLine: file contents are Dafny strings, so a `current.jj` or day log that is not valid UTF-8 cannot be represented. The `read_line` and `lines()` errors such contents raise are not modelled.
- TimeFormat.LocalToUtc: the UTC offset is given as integer hours and minutes, already truncated from the configured `f32` as `trunc(h)` and `trunc(frac * 60)`. The floating-point arithmetic itself is not modelled.
- TimeFormat.FormatTwentyFourHours: the model's calendar is unbounded. chrono's limit on the representable date range, about 262,000 years either side of year 0, is not modelled.
- ShellWords.UnquotedInputSplits: `shell_words::split` comes from the shell-words crate, not the repository. Its state machine is modelled from the crate's documented behaviour.
- TrackerStore.CreateEntry: a day log path that is itself named `current.jj` is not singled out. The lemmas that need the two files to differ say so in their `requires`.
- Text.AsciiLower: `to_lowercase` and `to_uppercase` are modelled on ASCII letters only. Other letters keep their case in the model, whereas Rust maps them by Unicode rules.
- Jira.DateShapeIsPattern: `\d` is taken as an ASCII digit. The regex crate's Unicode `\d` also accepts other decimal digits.
- Jira.Logout: the keyring is a map from key to secret. A deletion that fails stops `logout` in the source; the model treats every deletion as succeeding. `Secrets::delete` is not part of this model.
- TrackerProperties.ClosedEntryAddsOneLine: a day log whose last line lacks its newline gets the entry glued onto that line. That case, and entries that are not clean, are not covered.
- TrackerStore.CreateEntry: the `logging time for …` line that `create_entry` prints before writing (src/common/tracker.rs:53) is console output and is not modelled.
- Jira.StartCommand: the search request is not modelled, so its result is a parameter (`fetched`). This covers `get_project_issues`, `find_account_id` and the JSON decoding.
- Jira.PickIssue: the number typed at the prompt is a parameter, already parsed (`None` when it does not parse). Typing 0 picks two empty strings, as the wrapped index does in a release build; a debug build would panic on the subtraction instead.
- Jira.StartCommand: the `till` and `from` values are taken as already resolved from `StartSubcommandA`/`StartSubcommandB`. The defaults of those command-line types are not part of this model.
- Jira.SetCommand: the operating-system name is a parameter. For an unsupported system the source builds an error value and discards it, so the command succeeds and prints nothing; the model returns success with no line.
- Jira.FuzzyFilter: the JSON value is a datatype without floating-point numbers. Only the `name` lookup and string equality matter to the filter.
- `init` and its prompts, `add`, `Edit`, the clocks (`src/clocks/`, `internal/clocks/`), `src/app/jira.rs`, `cmd/auth.go` and the logging setup are outside the modelled core.
- `Selector`: `View`, `ShowSimpleList` and the bubbletea runtime are terminal rendering and are not modelled.
