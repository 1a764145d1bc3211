/**
 * The file-system view the commands work on: cleaned paths, directory
 * entries with the metadata the commands read, the outcome of the initial
 * stat of the directory argument, the errors a command returns, and the
 * first-error-stops rule shared by every loop that touches the disk.
 */
module Fs {
  import opened Wrappers

  /** A cleaned path, one element per name between separators. */
  type Path = seq<string>

  type Month = m: int | 1 <= m <= 12 witness 1
  type Day = d: int | 1 <= d <= 31 witness 1

  /** A local calendar date, as a modification time decomposes into one. */
  datatype Date = Date(year: int, month: Month, day: Day)

  /** A modification time: the instant (which orders times) and its local date. */
  datatype ModTime = ModTime(instant: int, date: Date)

  /** One entry of a directory listing or walk: where it is, what it is called, what it is. */
  datatype FileEntry = FileEntry(dir: Path, name: string, isDir: bool, size: int, modTime: ModTime)

  /** The full path of an entry: its directory joined with its name. */
  function PathOf(e: FileEntry): Path
  {
    e.dir + [e.name]
  }

  /**
   * What stat reports for the directory argument of a command. StatFailed
   * stands for every error stat can return: a missing path, a denied
   * permission, and the rest.
   */
  datatype Stat = StatFailed | RegularFile | Directory

  /** An os.Rename of the file at `from` to the path `to`: a move or a rename. */
  datatype Rename = Rename(from: Path, to: Path)

  datatype Error =
    | MissingArguments
    | AccessFailed(path: Path)
    | NotADirectory(path: Path)
    | ReadFailed(path: Path)
    | WalkFailed(path: Path)
    | InfoFailed(path: Path)
    | MoveFailed(path: Path)
    | RenameFailed(from: Path, to: Path)
    | UnknownSortOption(option: string)

  /**
   * The checks every command makes before it touches anything: the
   * required number of positional arguments, then stat of the directory.
   */
  function CheckDirectory(argc: nat, needed: nat, dir: Path, stat: Stat): (r: Option<Error>)
    ensures r.None? <==> needed <= argc && stat == Directory
    ensures argc < needed ==> r == Some(MissingArguments)
    ensures needed <= argc && stat == StatFailed ==> r == Some(AccessFailed(dir))
    ensures needed <= argc && stat == RegularFile ==> r == Some(NotADirectory(dir))
  {
    if argc < needed then Some(MissingArguments)
    else match stat
      case StatFailed => Some(AccessFailed(dir))
      case RegularFile => Some(NotADirectory(dir))
      case Directory => None
  }

  /** The entries that are not directories, in listing order. */
  function NonDirectories(entries: seq<FileEntry>): (files: seq<FileEntry>)
    ensures |files| <= |entries|
  {
    if entries == [] then []
    else
      var last := entries[|entries| - 1];
      NonDirectories(entries[..|entries| - 1]) + (if last.isDir then [] else [last])
  }

  /** The filter keeps exactly the entries that are not directories. */
  lemma {:induction false} NonDirectoriesMembers(entries: seq<FileEntry>, e: FileEntry)
    ensures e in NonDirectories(entries) <==> e in entries && !e.isDir
    decreases |entries|
  {
    if entries != [] {
      var n := |entries| - 1;
      NonDirectoriesMembers(entries[..n], e);
      assert entries == entries[..n] + [entries[n]];
    }
  }

  /** One more entry: the filter of the prefix, then that entry if it is not a directory. */
  lemma NonDirectoriesExtend(entries: seq<FileEntry>, k: nat)
    requires k < |entries|
    ensures NonDirectories(entries[..k + 1])
      == NonDirectories(entries[..k]) + (if entries[k].isDir then [] else [entries[k]])
  {
    assert entries[..k + 1][..k] == entries[..k];
  }

  /** The loop that collects the non-directory entries of a listing, in order. */
  method CollectFiles(entries: seq<FileEntry>) returns (files: seq<FileEntry>)
    ensures files == NonDirectories(entries)
  {
    files := [];
    var k := 0;
    while k < |entries|
      invariant 0 <= k <= |entries|
      invariant files == NonDirectories(entries[..k])
    {
      NonDirectoriesExtend(entries, k);
      if !entries[k].isDir {
        files := files + [entries[k]];
      }
      k := k + 1;
    }
    assert entries[..k] == entries;
  }

  /** Filtering keeps the listing order: it distributes over concatenation. */
  lemma {:induction false} NonDirectoriesAppend(a: seq<FileEntry>, b: seq<FileEntry>)
    ensures NonDirectories(a + b) == NonDirectories(a) + NonDirectories(b)
    decreases |b|
  {
    if b == [] {
      assert a + b == a;
    } else {
      var b' := b[..|b| - 1];
      assert (a + b)[..|a + b| - 1] == a + b';
      NonDirectoriesAppend(a, b');
    }
  }

  /** A listing without directories is kept whole. */
  lemma {:induction false} NonDirectoriesOfFiles(entries: seq<FileEntry>)
    requires forall i :: 0 <= i < |entries| ==> !entries[i].isDir
    ensures NonDirectories(entries) == entries
    decreases |entries|
  {
    if entries != [] {
      var n := |entries| - 1;
      NonDirectoriesOfFiles(entries[..n]);
      assert entries[..n] + [entries[n]] == entries;
    }
  }

  /**
   * Position of the first step that fails among steps 0 .. n-1, or n when
   * none fails: a loop that stops at its first error completes exactly the
   * steps before this position.
   */
  function FirstFailure(failAt: set<nat>, n: nat): (k: nat)
    ensures k <= n
    ensures k < n ==> k in failAt
    ensures forall j :: 0 <= j < k ==> j !in failAt
  {
    if n == 0 then 0
    else
      var k := FirstFailure(failAt, n - 1);
      if k < n - 1 then k
      else if n - 1 in failAt then n - 1
      else n
  }

  /** The first failure is the failing step that every earlier step survives. */
  lemma FirstFailureAt(failAt: set<nat>, n: nat, k: nat)
    requires k < n && k in failAt
    requires forall j :: 0 <= j < k ==> j !in failAt
    ensures FirstFailure(failAt, n) == k
  {
  }

  /** When no step fails, all of them complete. */
  lemma FirstFailureNone(failAt: set<nat>, n: nat)
    requires forall j :: 0 <= j < n ==> j !in failAt
    ensures FirstFailure(failAt, n) == n
  {
  }
}
