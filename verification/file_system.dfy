/** The local file system the tracker works on: files with text contents and
    directories, addressed by paths of components. The root (the empty path)
    is always a directory. */
module FileSystem {
  import opened Wrappers

  type Path = seq<string>

  /** The kind of an `std::io::Error` the model can raise. */
  datatype IoKind = NotFound | IsADirectory | NotADirectory | AlreadyExists

  datatype Fs = Fs(files: map<Path, string>, dirs: set<Path>)

  function Parent(p: Path): Path
    requires |p| >= 1
  {
    p[..|p| - 1]
  }

  predicate IsDir(fs: Fs, p: Path) {
    p == [] || p in fs.dirs
  }

  /** `fs::try_exists`. */
  predicate Exists(fs: Fs, p: Path) {
    p in fs.files || IsDir(fs, p)
  }

  /** What every real file system guarantees: an entry is a file or a
      directory but not both, and its parent is a directory. */
  predicate Valid(fs: Fs) {
    && (forall p :: p in fs.files ==> |p| >= 1 && p !in fs.dirs && IsDir(fs, Parent(p)))
    && (forall d :: d in fs.dirs ==> |d| >= 1 && IsDir(fs, Parent(d)))
  }

  /** The text of a file, empty when it does not exist. */
  function Content(fs: Fs, p: Path): string {
    if p in fs.files then fs.files[p] else ""
  }

  /** `fs` after `p` has been opened with `create`: a missing file now exists, empty. */
  function Touch(fs: Fs, p: Path): Fs {
    fs.(files := fs.files[p := Content(fs, p)])
  }

  /** Opening an existing file with `create` changes nothing. */
  lemma TouchExisting(fs: Fs, p: Path)
    requires p in fs.files
    ensures Touch(fs, p) == fs
  {
    assert fs.files[p := fs.files[p]] == fs.files;
  }

  /** Whether `OpenAppend(fs, p, true)` succeeds. */
  predicate CanOpenOrCreate(fs: Fs, p: Path) {
    p in fs.files || (!IsDir(fs, p) && |p| >= 1 && IsDir(fs, Parent(p)))
  }

  /** Whether some ancestor of `p`, or `p` itself, is a file. */
  predicate BlockedByFile(fs: Fs, p: Path)
    decreases |p|
  {
    !IsDir(fs, p) && (p in fs.files || (|p| >= 1 && BlockedByFile(fs, Parent(p))))
  }

  /** The error `open(2)` reports for a path that is not an existing file:
      a directory, a path below a regular file, or a missing path. */
  function OpenErrorKind(fs: Fs, p: Path): IoKind {
    if IsDir(fs, p) then IsADirectory
    else if BlockedByFile(fs, Parent(p)) then NotADirectory
    else NotFound
  }

  /** `OpenOptions::new().append(true).read(true)[.create(create)].open(p)`:
      opening changes nothing, except that `create` makes a missing file empty. */
  function OpenAppend(fs: Fs, p: Path, create: bool): (r: Result<Fs, IoKind>)
    requires Valid(fs)
    ensures r.Success? <==> p in fs.files || (create && CanOpenOrCreate(fs, p))
    ensures r.Success? ==> Valid(r.value) && p in r.value.files
    ensures r.Success? ==> r.value == Touch(fs, p)
    ensures r.Failure? ==> r.error == OpenErrorKind(fs, p)
  {
    if p in fs.files then Success(fs)
    else if IsDir(fs, p) then Failure(IsADirectory)
    else if BlockedByFile(fs, Parent(p)) then Failure(NotADirectory)
    else if !create then Failure(NotFound)
    else if IsDir(fs, Parent(p)) then Success(fs.(files := fs.files[p := ""]))
    else Failure(NotFound)
  }

  /** `write_all` followed by `flush` on a file opened for appending. */
  function Append(fs: Fs, p: Path, text: string): (r: Fs)
    requires Valid(fs) && p in fs.files
    ensures Valid(r)
    ensures r.files == fs.files[p := fs.files[p] + text] && r.dirs == fs.dirs
  {
    fs.(files := fs.files[p := fs.files[p] + text])
  }

  /** Every path at or below a regular file is blocked by it, and no path
      strictly below it exists. */
  lemma {:induction false} BelowFileIsBlocked(fs: Fs, q: Path, p: Path)
    requires Valid(fs) && q in fs.files && q <= p
    ensures BlockedByFile(fs, p) && !IsDir(fs, p)
    ensures p != q ==> p !in fs.files
    decreases |p|
  {
    if p != q {
      assert q <= Parent(p) by {
        assert |q| < |p|;
        assert q == p[..|q|];
        assert Parent(p)[..|q|] == p[..|q|];
      }
      BelowFileIsBlocked(fs, q, Parent(p));
    }
  }

  /** Opening a path below a regular file fails as `NotADirectory`, with or
      without `create`, as ENOTDIR from `open(2)` does. */
  lemma OpenBelowFile(fs: Fs, q: Path, p: Path, create: bool)
    requires Valid(fs) && q in fs.files && q < p
    ensures OpenErrorKind(fs, p) == NotADirectory
    ensures OpenAppend(fs, p, create) == Failure(NotADirectory)
  {
    assert q <= Parent(p) by {
      assert q == p[..|q|];
      assert Parent(p)[..|q|] == p[..|q|];
    }
    BelowFileIsBlocked(fs, q, Parent(p));
    BelowFileIsBlocked(fs, q, p);
  }

  /** `OpenOptions::new().write(true).truncate(true).open(p)`: empties an existing file. */
  function OpenTruncate(fs: Fs, p: Path): (r: Result<Fs, IoKind>)
    requires Valid(fs)
    ensures r.Success? <==> p in fs.files
    ensures r.Success? ==> Valid(r.value) && r.value.files == fs.files[p := ""] && r.value.dirs == fs.dirs
    ensures r.Failure? ==> r.error == OpenErrorKind(fs, p)
  {
    if p in fs.files then Success(fs.(files := fs.files[p := ""]))
    else if IsDir(fs, p) then Failure(IsADirectory)
    else if BlockedByFile(fs, Parent(p)) then Failure(NotADirectory)
    else Failure(NotFound)
  }

  /** `fs::create_dir_all`: makes `p` and every missing ancestor a directory. */
  function CreateDirAll(fs: Fs, p: Path): (r: Result<Fs, IoKind>)
    requires Valid(fs)
    ensures r.Success? <==> !BlockedByFile(fs, p)
    ensures r.Success? ==> Valid(r.value) && IsDir(r.value, p)
    ensures r.Success? ==> r.value.files == fs.files && fs.dirs <= r.value.dirs
    ensures r.Success? ==> forall d :: d in r.value.dirs && d !in fs.dirs ==> d <= p
    ensures r.Failure? ==> r.error == if p in fs.files then AlreadyExists else NotADirectory
    decreases |p|
  {
    if IsDir(fs, p) then Success(fs)
    else if p in fs.files then Failure(AlreadyExists)
    else
      match CreateDirAll(fs, Parent(p))
      case Failure(_) => Failure(NotADirectory)
      case Success(fs1) => Success(fs1.(dirs := fs1.dirs + {p}))
  }

  /** `fs::File::create`: creates, or empties, the file `p`. */
  function CreateFile(fs: Fs, p: Path): (r: Result<Fs, IoKind>)
    requires Valid(fs)
    ensures r.Success? <==> p in fs.files || (!IsDir(fs, p) && |p| >= 1 && IsDir(fs, Parent(p)))
    ensures r.Success? ==> Valid(r.value) && r.value.files == fs.files[p := ""] && r.value.dirs == fs.dirs
    ensures r.Failure? ==> r.error == OpenErrorKind(fs, p)
  {
    if IsDir(fs, p) then Failure(IsADirectory)
    else if p in fs.files || IsDir(fs, Parent(p)) then Success(fs.(files := fs.files[p := ""]))
    else if BlockedByFile(fs, Parent(p)) then Failure(NotADirectory)
    else Failure(NotFound)
  }

  /** The position of the first newline of `c`, or `|c|` when there is none. */
  function NewlineIndex(c: string): (k: nat)
    ensures k <= |c|
    ensures k < |c| ==> c[k] == '\n'
    ensures forall i :: 0 <= i < k ==> c[i] != '\n'
  {
    if |c| == 0 then 0
    else if c[0] == '\n' then 0
    else 1 + NewlineIndex(c[1..])
  }

  /** `read_line` at the start of a file: the text up to and including the
      first newline, or all of it when there is no newline. */
  function ReadLine(c: string): (line: string)
    ensures line <= c
    ensures '\n' in line ==> line[|line| - 1] == '\n'
  {
    var k := NewlineIndex(c);
    if k == |c| then c else c[..k + 1]
  }

  function StripCr(line: string): string {
    if |line| > 0 && line[|line| - 1] == '\r' then line[..|line| - 1] else line
  }

  /** tokio's `lines()`: every line loses its newline and then one carriage
      return; a last line without a newline is kept as it is. */
  function Lines(c: string): seq<string>
    decreases |c|
  {
    if |c| == 0 then []
    else
      var k := NewlineIndex(c);
      if k == |c| then [c]
      else [StripCr(c[..k])] + Lines(c[k + 1..])
  }

  /** Text the store has written ends with a newline (or is empty). */
  predicate NewlineTerminated(c: string) {
    |c| == 0 || c[|c| - 1] == '\n'
  }

  /** A line the store writes: no newline inside and no carriage return at its end. */
  predicate IsCleanLine(line: string) {
    '\n' !in line && (|line| == 0 || line[|line| - 1] != '\r')
  }

  lemma NewlineIndexPrefix(a: string, b: string)
    requires NewlineIndex(a) < |a|
    ensures NewlineIndex(a + b) == NewlineIndex(a)
  {
    var k, j := NewlineIndex(a), NewlineIndex(a + b);
    assert (a + b)[k] == '\n';
    if j < k {
      assert (a + b)[j] == a[j];
    }
  }

  /** `lines()` takes off the first newline-terminated line. */
  lemma LinesStep(c: string)
    requires NewlineIndex(c) < |c|
    ensures Lines(c) == [StripCr(c[..NewlineIndex(c)])] + Lines(c[NewlineIndex(c) + 1..])
  {
  }

  /** The first line of newline-terminated `a` is also the first line of `a + b`. */
  lemma FirstLineOfConcat(a: string, b: string)
    requires |a| > 0 && NewlineTerminated(a)
    ensures NewlineIndex(a) < |a| && NewlineIndex(a + b) == NewlineIndex(a)
    ensures (a + b)[..NewlineIndex(a)] == a[..NewlineIndex(a)]
    ensures (a + b)[NewlineIndex(a) + 1..] == a[NewlineIndex(a) + 1..] + b
    ensures NewlineTerminated(a[NewlineIndex(a) + 1..])
  {
    var k := NewlineIndex(a);
    assert a[|a| - 1] == '\n';
    NewlineIndexPrefix(a, b);
    var tail := a[k + 1..];
    if |tail| > 0 { assert tail[|tail| - 1] == a[|a| - 1]; }
  }

  /** `lines()` of `a + b` takes off the first line of newline-terminated `a`. */
  lemma LinesOfConcatStep(a: string, b: string)
    requires |a| > 0 && NewlineTerminated(a)
    ensures NewlineIndex(a) < |a|
    ensures Lines(a + b) == [StripCr(a[..NewlineIndex(a)])] + Lines(a[NewlineIndex(a) + 1..] + b)
  {
    FirstLineOfConcat(a, b);
    LinesStep(a + b);
  }

  /** The inductive step of `LinesConcat`, given the claim for the rest of `a`. */
  lemma LinesConcatStep(a: string, b: string)
    requires |a| > 0 && NewlineTerminated(a) && NewlineIndex(a) < |a|
    requires Lines(a[NewlineIndex(a) + 1..] + b) == Lines(a[NewlineIndex(a) + 1..]) + Lines(b)
    ensures Lines(a + b) == Lines(a) + Lines(b)
  {
    var k := NewlineIndex(a);
    var x, tail := StripCr(a[..k]), a[k + 1..];
    LinesStep(a);
    LinesOfConcatStep(a, b);
    ConcatAssoc([x], Lines(tail), Lines(b));
  }

  lemma ConcatAssoc(x: seq<string>, y: seq<string>, z: seq<string>)
    ensures x + (y + z) == (x + y) + z
  {
  }

  lemma {:induction false} LinesConcat(a: string, b: string)
    requires NewlineTerminated(a)
    ensures Lines(a + b) == Lines(a) + Lines(b)
    decreases |a|
  {
    if |a| == 0 {
      assert a + b == b;
    } else {
      FirstLineOfConcat(a, b);
      LinesConcat(a[NewlineIndex(a) + 1..], b);
      LinesConcatStep(a, b);
    }
  }

  lemma SingleLine(line: string)
    requires IsCleanLine(line)
    ensures Lines(line + "\n") == [line]
  {
    var c := line + "\n";
    assert forall i :: 0 <= i < |line| ==> c[i] == line[i];
    assert c[|line|] == '\n';
    assert NewlineIndex(c) == |line|;
    assert c[..|line|] == line;
    assert c[|line| + 1..] == [];
  }

  /** Appending one clean line to newline-terminated text adds exactly that
      line to what `lines()` yields, after the lines already there. */
  lemma AppendAddsOneLine(c: string, line: string)
    requires NewlineTerminated(c) && IsCleanLine(line)
    ensures Lines(c + line + "\n") == Lines(c) + [line]
    ensures NewlineTerminated(c + line + "\n")
  {
    assert c + line + "\n" == c + (line + "\n");
    LinesConcat(c, line + "\n");
    SingleLine(line);
  }

  /** The first line read back from a file that starts with a clean line is that line. */
  lemma ReadLineOfFirst(line: string, rest: string)
    requires '\n' !in line
    ensures ReadLine(line + "\n" + rest) == line + "\n"
  {
    var c := line + "\n" + rest;
    assert forall i :: 0 <= i < |line| ==> c[i] == line[i];
    assert c[|line|] == '\n';
    assert NewlineIndex(c) == |line|;
    assert c[..|line| + 1] == line + "\n";
  }
}
