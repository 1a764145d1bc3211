/**
 * The list command: collect the files of a directory (its own entries, or
 * every file below it when recursive), then sort them by name, size or
 * modification time, as sort.Slice does with a strict "less" comparison.
 */
module Listing {
  import opened Wrappers
  import opened Fs
  import opened Strings

  /** The values of the --sort flag the command understands. */
  datatype SortKey = ByName | BySize | ByTime

  function KeyName(key: SortKey): string
  {
    match key
    case ByName => "name"
    case BySize => "size"
    case ByTime => "time"
  }

  /** The switch on the --sort flag; any other value is an error. */
  function ParseSortKey(s: string): (r: Result<SortKey, Error>)
    ensures r.Err? ==> r.error == UnknownSortOption(s)
  {
    if s == "name" then Ok(ByName)
    else if s == "size" then Ok(BySize)
    else if s == "time" then Ok(ByTime)
    else Err(UnknownSortOption(s))
  }

  /** Every key's flag value selects that key. */
  lemma ParseKeyName(key: SortKey)
    ensures ParseSortKey(KeyName(key)) == Ok(key)
  {
  }

  /** A value is accepted exactly when it is the flag value of some key. */
  lemma ParseSortKeyAccepts(s: string)
    ensures ParseSortKey(s).Ok? <==> s == "name" || s == "size" || s == "time"
    ensures ParseSortKey(s).Ok? ==> KeyName(ParseSortKey(s).value) == s
  {
  }

  /** The comparison handed to sort.Slice for each key. */
  predicate Less(a: FileEntry, b: FileEntry, key: SortKey)
  {
    match key
    case ByName => StrLess(a.name, b.name)
    case BySize => a.size < b.size
    case ByTime => a.modTime.instant < b.modTime.instant
  }

  /** a may come before b: b is not less than a. */
  predicate Leq(a: FileEntry, b: FileEntry, key: SortKey)
  {
    !Less(b, a, key)
  }

  /** What sort.Slice promises: no element is less than one before it. */
  predicate Sorted(s: seq<FileEntry>, key: SortKey)
  {
    forall i, j :: 0 <= i < j < |s| ==> Leq(s[i], s[j], key)
  }

  /** Each comparison is a strict order. */
  lemma LessAsymmetric(a: FileEntry, b: FileEntry, key: SortKey)
    requires Less(a, b, key)
    ensures !Less(b, a, key)
  {
    if key == ByName {
      StrLessAsymmetric(a.name, b.name);
    }
  }

  lemma LessIrreflexive(a: FileEntry, key: SortKey)
    ensures !Less(a, a, key)
  {
    if key == ByName {
      StrLessIrreflexive(a.name);
    }
  }

  /** ... whose incomparability is transitive, so a sorted order exists. */
  lemma LeqTransitive(a: FileEntry, b: FileEntry, c: FileEntry, key: SortKey)
    requires Leq(a, b, key) && Leq(b, c, key)
    ensures Leq(a, c, key)
  {
    if key == ByName {
      StrLeqTransitive(a.name, b.name, c.name);
    }
  }

  /** Any two entries can be put in some order. */
  lemma LeqTotal(a: FileEntry, b: FileEntry, key: SortKey)
    ensures Leq(a, b, key) || Leq(b, a, key)
  {
    if Less(a, b, key) {
      LessAsymmetric(a, b, key);
    }
  }

  /** The first n elements of a are in order. */
  predicate SortedPrefix(a: array<FileEntry>, n: nat, key: SortKey)
    reads a
    requires n <= a.Length
  {
    forall p, q :: 0 <= p < q < n ==> Leq(a[p], a[q], key)
  }

  /** Exchanges a[k - 1] and a[k]; the files held stay the same. */
  method Swap(a: array<FileEntry>, k: nat)
    requires 0 < k < a.Length
    modifies a
    ensures a[k - 1] == old(a[k]) && a[k] == old(a[k - 1])
    ensures forall m :: 0 <= m < a.Length && m != k - 1 && m != k ==> a[m] == old(a[m])
    ensures multiset(a[..]) == multiset(old(a[..]))
  {
    a[k - 1], a[k] := a[k], a[k - 1];
  }

  /** Sorting a 10-byte a.txt and a 5-byte b.txt by size can only give b.txt first. */
  lemma SizeOrderExample(a: FileEntry, b: FileEntry, s: seq<FileEntry>)
    requires a.name == "a.txt" && a.size == 10 && b.name == "b.txt" && b.size == 5
    requires Sorted(s, BySize) && multiset(s) == multiset([a, b])
    ensures s == [b, a]
  {
    assert |s| == |multiset(s)| == 2;
    assert s[0] in multiset(s) && s[1] in multiset(s);
    assert a != b;
    assert Leq(s[0], s[1], BySize);
  }

  /**
   * Insertion of a[i] into the sorted prefix a[..i]: it moves left past
   * every element that is greater than it.
   */
  method InsertInto(a: array<FileEntry>, i: nat, key: SortKey)
    requires i < a.Length
    requires SortedPrefix(a, i, key)
    modifies a
    ensures SortedPrefix(a, i + 1, key)
    ensures multiset(a[..]) == multiset(old(a[..]))
    ensures forall m :: i < m < a.Length ==> a[m] == old(a[m])
  {
    var j := i;
    while j > 0 && Less(a[j], a[j - 1], key)
      invariant 0 <= j <= i
      invariant multiset(a[..]) == multiset(old(a[..]))
      invariant forall m :: i < m < a.Length ==> a[m] == old(a[m])
      invariant forall p, q :: 0 <= p < q <= i && p != j && q != j ==> Leq(a[p], a[q], key)
      invariant forall q :: j < q <= i ==> Leq(a[j], a[q], key)
    {
      LessAsymmetric(a[j], a[j - 1], key);
      Swap(a, j);
      j := j - 1;
    }
    forall p, q | 0 <= p < q <= i
      ensures Leq(a[p], a[q], key)
    {
      if q == j && p < j - 1 {
        LeqTransitive(a[p], a[j - 1], a[j], key);
      }
    }
  }

  /** sort.Slice on the collected files: afterwards a is sorted and holds the same files. */
  method SortFiles(a: array<FileEntry>, key: SortKey)
    modifies a
    ensures Sorted(a[..], key)
    ensures multiset(a[..]) == multiset(old(a[..]))
  {
    var i := 0;
    while i < a.Length
      invariant 0 <= i <= a.Length
      invariant SortedPrefix(a, i, key)
      invariant multiset(a[..]) == multiset(old(a[..]))
    {
      InsertInto(a, i, key);
      i := i + 1;
    }
  }

  /**
   * The files the command lists, before sorting. Recursively, `entries` are
   * the walk's entries, the directory itself first, and `failAt` the
   * positions among them where the walk reports an error. Otherwise
   * `entries` are the directory's own entries, and `failAt` the ordinals,
   * among its files, of those whose Info call fails.
   */
  function Collected(recursive: bool, dir: Path, readFails: bool, entries: seq<FileEntry>, failAt: set<nat>)
    : (r: Result<seq<FileEntry>, Error>)
    ensures r.Ok? ==> r.value == NonDirectories(entries)
    ensures !recursive && readFails ==> r == Err(ReadFailed(dir))
  {
    if recursive then
      var n := FirstFailure(failAt, |entries|);
      if n < |entries| then Err(WalkFailed(PathOf(entries[n]))) else Ok(NonDirectories(entries))
    else if readFails then Err(ReadFailed(dir))
    else
      var files := NonDirectories(entries);
      var n := FirstFailure(failAt, |files|);
      if n < |files| then Err(InfoFailed(PathOf(files[n]))) else Ok(files)
  }

  /** The walk's callback over every entry: stop at an error, keep what is not a directory. */
  method WalkFiles(entries: seq<FileEntry>, failAt: set<nat>) returns (r: Result<seq<FileEntry>, Error>)
    ensures r == Collected(true, [], false, entries, failAt)
  {
    var files := [];
    var k := 0;
    while k < |entries|
      invariant 0 <= k <= |entries|
      invariant files == NonDirectories(entries[..k])
      invariant forall j :: 0 <= j < k ==> j !in failAt
    {
      var e := entries[k];
      NonDirectoriesExtend(entries, k);
      if k in failAt {
        FirstFailureAt(failAt, |entries|, k);
        return Err(WalkFailed(PathOf(e)));
      }
      if !e.isDir {
        files := files + [e];
      }
      k := k + 1;
    }
    assert entries[..k] == entries;
    FirstFailureNone(failAt, |entries|);
    return Ok(files);
  }

  /**
   * The read stops at the k-th entry when it is a file whose Info call
   * fails and every earlier file's call succeeds.
   */
  lemma ReadFailsAt(entries: seq<FileEntry>, failAt: set<nat>, k: nat)
    requires k < |entries| && !entries[k].isDir
    requires |NonDirectories(entries[..k])| in failAt
    requires forall j :: 0 <= j < |NonDirectories(entries[..k])| ==> j !in failAt
    ensures Collected(false, [], false, entries, failAt) == Err(InfoFailed(PathOf(entries[k])))
  {
    var before := NonDirectories(entries[..k]);
    NonDirectoriesExtend(entries, k);
    NonDirectoriesAppend(entries[..k + 1], entries[k + 1..]);
    assert entries[..k + 1] + entries[k + 1..] == entries;
    var files := NonDirectories(entries);
    assert files[..|before| + 1] == before + [entries[k]];
    assert files[|before|] == entries[k];
    FirstFailureAt(failAt, |files|, |before|);
  }

  /** The directory read of a flat listing: each file's Info call in turn, stopping at the first that fails. */
  method ReadFiles(entries: seq<FileEntry>, failAt: set<nat>) returns (r: Result<seq<FileEntry>, Error>)
    ensures r == Collected(false, [], false, entries, failAt)
  {
    var files := [];
    var k := 0;
    while k < |entries|
      invariant 0 <= k <= |entries|
      invariant files == NonDirectories(entries[..k])
      invariant forall j :: 0 <= j < |files| ==> j !in failAt
    {
      var e := entries[k];
      NonDirectoriesExtend(entries, k);
      if !e.isDir {
        if |files| in failAt {
          ReadFailsAt(entries, failAt, k);
          return Err(InfoFailed(PathOf(e)));
        }
        files := files + [e];
      }
      k := k + 1;
    }
    assert entries[..k] == entries;
    FirstFailureNone(failAt, |files|);
    return Ok(files);
  }

  /**
   * The list command: argument and stat checks, the collection, then the
   * --sort switch (an unknown value is an error once the files are
   * collected), and the sort. On success the result holds exactly the
   * collected files, in the order of the chosen key.
   */
  method List(argc: nat, dir: Path, stat: Stat, recursive: bool, readFails: bool,
              entries: seq<FileEntry>, failAt: set<nat>, sortBy: string)
    returns (r: Result<seq<FileEntry>, Error>)
    ensures CheckDirectory(argc, 1, dir, stat).Some? ==> r == Err(CheckDirectory(argc, 1, dir, stat).value)
    ensures CheckDirectory(argc, 1, dir, stat).None? ==>
      var collected := Collected(recursive, dir, readFails, entries, failAt);
      var parsed := ParseSortKey(sortBy);
      (collected.Err? ==> r == Err(collected.error)) &&
      (collected.Ok? && parsed.Err? ==> r == Err(parsed.error)) &&
      (collected.Ok? && parsed.Ok? ==>
        r.Ok? && Sorted(r.value, parsed.value) && multiset(r.value) == multiset(collected.value))
  {
    var pre := CheckDirectory(argc, 1, dir, stat);
    if pre.Some? {
      return Err(pre.value);
    }
    var collected;
    if recursive {
      collected := WalkFiles(entries, failAt);
    } else if readFails {
      collected := Err(ReadFailed(dir));
    } else {
      collected := ReadFiles(entries, failAt);
    }
    if collected.Err? {
      return Err(collected.error);
    }
    var parsed := ParseSortKey(sortBy);
    if parsed.Err? {
      return Err(parsed.error);
    }
    var files := collected.value;
    var a := new FileEntry[|files|](k requires 0 <= k < |files| => files[k]);
    assert a[..] == files;
    SortFiles(a, parsed.value);
    return Ok(a[..]);
  }
}
