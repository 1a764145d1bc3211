/**
 * The three rules that name the sub-folder a file is moved into: by size
 * bucket, by extension, and by modification date.
 */
module Categories {
  import opened Fs
  import opened Strings
  import opened Paths
  import opened Decimal

  /** 1 MiB: files strictly below it are small. */
  const SmallThreshold: int := 1024 * 1024
  /** 10 MiB: files strictly below it (and not small) are medium. */
  const MediumThreshold: int := 10 * 1024 * 1024

  /** The size bucket of a file size in bytes. */
  function SizeBucket(size: int): (r: string)
    ensures r == "small" || r == "medium" || r == "large"
  {
    if size < SmallThreshold then "small"
    else if size < MediumThreshold then "medium"
    else "large"
  }

  /** The buckets are three half-open intervals that together cover every size. */
  lemma SizeBucketPartition(size: int)
    ensures SizeBucket(size) == "small" <==> size < 1048576
    ensures SizeBucket(size) == "medium" <==> 1048576 <= size < 10485760
    ensures SizeBucket(size) == "large" <==> 10485760 <= size
  {
  }

  function BucketRank(bucket: string): nat
  {
    if bucket == "small" then 0 else if bucket == "medium" then 1 else 2
  }

  /** A bigger file never lands in a smaller bucket. */
  lemma SizeBucketMonotone(a: int, b: int)
    requires a <= b
    ensures BucketRank(SizeBucket(a)) <= BucketRank(SizeBucket(b))
  {
  }

  /** Each threshold belongs to the bucket above it. */
  lemma SizeBucketBoundaries()
    ensures SizeBucket(1048575) == "small"
    ensures SizeBucket(1048576) == "medium"
    ensures SizeBucket(10485759) == "medium"
    ensures SizeBucket(10485760) == "large"
  {
  }

  /**
   * The folder of a file sorted by type: its extension without the dot,
   * or "other" when that is empty. Never empty, never holds a '.' or '/'.
   */
  function TypeFolder(name: string): (r: string)
    ensures r != [] && '.' !in r && '/' !in r
  {
    var e := Ext(name);
    var ext := TrimPrefix(e, ".");
    assert ext == [] || ext == e[1..];
    assert forall j :: 0 <= j < |ext| ==> ext[j] != '.' && ext[j] != '/' by {
      forall j | 0 <= j < |ext|
        ensures ext[j] != '.' && ext[j] != '/'
      {
        assert ext[j] == e[j + 1];
      }
    }
    if ext == "" then "other" else ext
  }

  /**
   * The folder is exactly the text after the last '.' of the name, case
   * kept, or "other" when the name ends in that dot.
   */
  lemma TypeFolderAfterLastDot(name: string, k: nat)
    requires k < |name| && name[k] == '.'
    requires forall j :: k < j < |name| ==> name[j] != '.' && name[j] != '/'
    ensures TypeFolder(name) == if k + 1 == |name| then "other" else name[k + 1..]
  {
    SplitAtLastDot(name, k);
    assert TrimPrefix(name[k..], ".") == name[k + 1..];
  }

  /** A name with no '.' goes to "other". */
  lemma TypeFolderWithoutDot(name: string)
    requires '.' !in name
    ensures TypeFolder(name) == "other"
  {
    SplitWithoutDot(name);
  }

  /** Extensions differing only in case go to different folders. */
  lemma TypeFolderCaseSensitive()
    ensures TypeFolder("notes.txt") == "txt"
    ensures TypeFolder("notes.TXT") == "TXT"
    ensures TypeFolder("README") == "other"
  {
    TypeFolderAfterLastDot("notes.txt", 5);
    TypeFolderAfterLastDot("notes.TXT", 5);
    TypeFolderWithoutDot("README");
  }

  /** How the layout "2006" prints a year: at least four digits, with a sign when negative. */
  function FormatYear(year: int): (s: string)
    ensures |s| >= 4
    ensures 0 <= year < 10000 ==> |s| == 4 && AllDigits(s) && Value(s) == year
    ensures year < 0 ==> s[0] == '-' && AllDigits(s[1..]) && Value(s[1..]) == -year
  {
    if year < 0 then "-" + PadZero(-year, 4) else PadZero(year, 4)
  }

  /**
   * The folder of a file sorted by date: its modification date in the
   * layout "02012006", that is two-digit day, two-digit month, year.
   */
  function DateFolder(t: ModTime): (r: string)
    ensures |r| >= 8
  {
    PadZero(t.date.day, 2) + PadZero(t.date.month, 2) + FormatYear(t.date.year)
  }

  /** Each field of the date reads back from its place in the folder name. */
  lemma DateFolderFields(t: ModTime)
    ensures var r := DateFolder(t);
      AllDigits(r[..4]) && Value(r[..2]) == t.date.day && Value(r[2..4]) == t.date.month
    ensures var r := DateFolder(t);
      0 <= t.date.year ==> AllDigits(r[4..]) && Value(r[4..]) == t.date.year
    ensures 0 <= t.date.year < 10000 ==> |DateFolder(t)| == 8
    ensures var r := DateFolder(t);
      t.date.year < 0 ==> r[4] == '-' && AllDigits(r[5..]) && Value(r[5..]) == -t.date.year
  {
    var dd := PadZero(t.date.day, 2);
    var mm := PadZero(t.date.month, 2);
    var yyyy := FormatYear(t.date.year);
    var r := dd + mm + yyyy;
    assert r[..2] == dd && r[2..4] == mm && r[4..] == yyyy;
    assert t.date.year < 0 ==> r[5..] == yyyy[1..];
  }

  /** The time of day plays no part: two times on the same date share a folder. */
  lemma DateFolderSameDay(t1: ModTime, t2: ModTime)
    requires t1.date == t2.date
    ensures DateFolder(t1) == DateFolder(t2)
  {
  }

  /** Conversely, two times share a folder only when they fall on the same date. */
  lemma DateFolderInjective(t1: ModTime, t2: ModTime)
    requires DateFolder(t1) == DateFolder(t2)
    ensures t1.date == t2.date
  {
    DateFolderFields(t1);
    DateFolderFields(t2);
  }
}
