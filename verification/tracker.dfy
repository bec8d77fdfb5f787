/** The local time-entry store (src/common/tracker.rs): a day log
    `<reference date>.jj` that entries are appended to, and beside it
    `current.jj`, holding the entry still open. */
module TrackerStore {
  import opened Wrappers
  import opened Text
  import opened FileSystem
  import opened Errors
  import opened ShellWords
  import opened TimeFormat

  const PackageName := "jired"
  const LogExtension := ".jj"
  const CurrentFileName := "current.jj"
  /** The end time of an entry that is still open. */
  const Sentinel := "-1"
  const EndBeforeStartMessage := "End time must be later than start time."
  const NoDataDirMessage := "Failed to get data dir"

  /** The configuration the store consults: only the UTC offset. */
  datatype Config = Config(timeZone: Option<Offset>)

  /** A tracker bound to the log file of one day. */
  datatype Tracker = Tracker(file: Path, config: Config)

  /** The file system after an operation, and what the operation returned.
      Writes made before an error stay in place. */
  datatype Effect<T> = Effect(fs: Fs, result: Result<T, Error>)

  /** `get_current_file_path`: `current.jj` in the directory of the day log. */
  function CurrentPath(t: Tracker): (p: Path)
    requires |t.file| >= 1
    ensures |p| == |t.file| && Parent(p) == Parent(t.file) && p[|p| - 1] == CurrentFileName
  {
    Parent(t.file) + [CurrentFileName]
  }

  /** The record `create_entry` writes, without its newline: four bare fields
      and the title between double quotes, which are not escaped. */
  function EntryText(project: string, task: string, end: string, start: string, title: string): string {
    project + " " + task + " " + end + " " + start + " \"" + title + "\""
  }

  /** The line `create_entry` writes. */
  function EntryLine(project: string, task: string, end: string, start: string, title: string): string {
    EntryText(project, task, end, start, title) + "\n"
  }

  /** The record with its title escaped for the double quotes around it, the
      form a stored title needs to read back whatever it holds. */
  function EscapedEntryText(project: string, task: string, end: string, start: string, title: string): string {
    project + " " + task + " " + end + " " + start + " \"" + EscapeQuoted(title) + "\""
  }

  function EscapedEntryLine(project: string, task: string, end: string, start: string, title: string): string {
    EscapedEntryText(project, task, end, start, title) + "\n"
  }

  /** `create_entry` rejects the entry: the end comes before the start in
      string order and is not the sentinel. */
  predicate Rejected(end: string, start: string) {
    LexLess(end, start) && end != Sentinel
  }

  /** The file an entry is written to. */
  function Target(t: Tracker, end: string): Path
    requires |t.file| >= 1
  {
    if end == Sentinel then CurrentPath(t) else t.file
  }

  /** `create_entry`. */
  function CreateEntry(t: Tracker, fs: Fs, project: string, task: string, end: string, start: string, title: string): (r: Effect<()>)
    requires Valid(fs)
    ensures Valid(r.fs)
    ensures r.result.Failure? ==> r.fs == fs
    ensures Rejected(end, start) ==> r.result == Failure(CustomError(EndBeforeStartMessage))
    ensures r.result.Success? <==>
      && !Rejected(end, start)
      && t.file in fs.files
      && (end == Sentinel ==> CanOpenOrCreate(fs, CurrentPath(t)))
    ensures r.result.Success? ==>
      && r.fs.dirs == fs.dirs
      && r.fs.files == fs.files[Target(t, end) := Content(fs, Target(t, end)) + EntryLine(project, task, end, start, title)]
  {
    if Rejected(end, start) then Effect(fs, Failure(CustomError(EndBeforeStartMessage)))
    else
      match OpenAppend(fs, t.file, false)
      case Failure(k) => Effect(fs, Failure(IoError(k)))
      case Success(fs1) =>
        var line := EntryLine(project, task, end, start, title);
        if end == Sentinel then
          var cur := CurrentPath(t);
          match OpenAppend(fs1, cur, true)
          case Failure(k) => Effect(fs1, Failure(IoError(k)))
          case Success(fs2) => Effect(Append(fs2, cur, line), Success(()))
        else Effect(Append(fs1, t.file, line), Success(()))
  }

  /** The end `stop_current` gives the open entry. */
  function StopTime(at: string, now: ClockTime): (e: string)
    requires ValidClock(now)
    ensures e != Sentinel
  {
    if at == Sentinel then FormatHHMM(now) else at
  }

  /** The words of the first line of `current.jj` (an absent file reads as empty). */
  function CurrentTokens(t: Tracker, fs: Fs): Result<seq<string>, SplitError>
    requires |t.file| >= 1
  {
    Split(ReadLine(Content(fs, CurrentPath(t))))
  }

  /** `stop_current`: moves the open entry to the day log, ending it at `at`
      (or at the clock's `now` when `at` is the sentinel), then empties
      `current.jj`. A first line that does not split into five words means no
      task is open. */
  function StopCurrent(t: Tracker, fs: Fs, at: string, now: ClockTime): (r: Effect<()>)
    requires Valid(fs) && |t.file| >= 1 && ValidClock(now)
    ensures Valid(r.fs)
    ensures r.result.Success? ==> CurrentPath(t) in r.fs.files
    ensures !CanOpenOrCreate(fs, CurrentPath(t)) ==> r.result.Failure? && r.fs == fs
    ensures CanOpenOrCreate(fs, CurrentPath(t)) && CurrentTokens(t, fs).Failure? ==>
      r == Effect(Touch(fs, CurrentPath(t)), Failure(CustomError(MissingClosingQuoteMessage)))
    ensures CanOpenOrCreate(fs, CurrentPath(t)) && CurrentTokens(t, fs).Success? && |CurrentTokens(t, fs).value| != 5 ==>
      r == Effect(Touch(fs, CurrentPath(t)), Success(()))
    ensures CanOpenOrCreate(fs, CurrentPath(t)) && CurrentTokens(t, fs).Success? && |CurrentTokens(t, fs).value| == 5 ==>
      var touched, tokens, end := Touch(fs, CurrentPath(t)), CurrentTokens(t, fs).value, StopTime(at, now);
      && (Rejected(end, tokens[3]) ==> r == Effect(touched, Failure(CustomError(EndBeforeStartMessage))))
      && (r.result.Success? <==> !Rejected(end, tokens[3]) && t.file in touched.files)
      && (r.result.Failure? ==> r.fs == touched)
      && (r.result.Success? ==>
            && r.fs.dirs == fs.dirs
            && r.fs.files == touched.files[t.file := Content(touched, t.file) + EntryLine(tokens[0], tokens[1], end, tokens[3], tokens[4])][CurrentPath(t) := ""])
  {
    var cur := CurrentPath(t);
    match OpenAppend(fs, cur, true)
    case Failure(k) => Effect(fs, Failure(IoError(k)))
    case Success(fs1) =>
      match Split(ReadLine(fs1.files[cur]))
      case Failure(_) => Effect(fs1, Failure(CustomError(MissingClosingQuoteMessage)))
      case Success(tokens) =>
        if |tokens| != 5 then Effect(fs1, Success(()))
        else
          var endTime := StopTime(at, now);
          var created := CreateEntry(t, fs1, tokens[0], tokens[1], endTime, tokens[3], tokens[4]);
          if created.result.Failure? then created
          else
            match OpenTruncate(created.fs, cur)
            case Failure(k) => Effect(created.fs, Failure(IoError(k)))
            case Success(fs2) => Effect(fs2, Success(()))
  }

  /** `read`: the lines of the day log. */
  function Read(t: Tracker, fs: Fs): (r: Result<seq<string>, Error>)
    ensures r.Success? <==> t.file in fs.files
    ensures r.Success? ==> r.value == Lines(fs.files[t.file])
    ensures r.Failure? ==> r.error == IoError(OpenErrorKind(fs, t.file))
  {
    if t.file in fs.files then Success(Lines(fs.files[t.file]))
    else if IsDir(fs, t.file) then Failure(IoError(IsADirectory))
    else if BlockedByFile(fs, Parent(t.file)) then Failure(IoError(NotADirectory))
    else Failure(IoError(NotFound))
  }

  /** `with_path_and_config`: makes sure the day log and its directory exist. */
  function WithPathAndConfig(file: Path, config: Config, fs: Fs): (r: Effect<Tracker>)
    requires Valid(fs)
    ensures Valid(r.fs)
    ensures r.result.Success? ==> r.result.value == Tracker(file, config) && Exists(r.fs, file)
    ensures Exists(fs, file) ==> r == Effect(fs, Success(Tracker(file, config)))
    ensures r.result.Failure? ==> r.fs == fs && r.result.error.TrackerError?
    ensures r.result.Failure? <==> !Exists(fs, file) && BlockedByFile(fs, Parent(file))
    ensures r.result.Success? && !Exists(fs, file) ==>
      && r.fs.files == fs.files[file := ""]
      && forall d :: d in r.fs.dirs && d !in fs.dirs ==> d < file
  {
    if Exists(fs, file) then Effect(fs, Success(Tracker(file, config)))
    else
      match CreateDirAll(fs, Parent(file))
      case Failure(k) => Effect(fs, Failure(TrackerError(k)))
      case Success(fs1) =>
        match CreateFile(fs1, file)
        case Failure(k) => Effect(fs1, Failure(IoError(k)))
        case Success(fs2) => Effect(fs2, Success(Tracker(file, config)))
  }

  /** The day log's path: `<data dir>/jired/<reference date>.jj`. */
  function LogPath(dataDir: Path, referenceDate: string): (p: Path)
    ensures |p| == |dataDir| + 2 && p[..|dataDir|] == dataDir
    ensures p[|dataDir|] == PackageName && p[|dataDir| + 1] == referenceDate + LogExtension
  {
    dataDir + [PackageName, referenceDate + LogExtension]
  }

  /** `new`: the tracker for the reference date (the `JIRED_CURRENT_TIME`
      override, or today's local date, as `YYYY-MM-DD` text). */
  function New(dataDir: Option<Path>, referenceDate: string, config: Config, fs: Fs): (r: Effect<Tracker>)
    requires Valid(fs)
    ensures Valid(r.fs)
    ensures dataDir.None? ==> r == Effect(fs, Failure(CustomError(NoDataDirMessage)))
    ensures r.result.Success? ==>
      && dataDir.Some?
      && r.result.value.file == LogPath(dataDir.value, referenceDate)
      && Exists(r.fs, r.result.value.file)
  {
    match dataDir
    case None => Effect(fs, Failure(CustomError(NoDataDirMessage)))
    case Some(dir) => WithPathAndConfig(LogPath(dir, referenceDate), config, fs)
  }
}
