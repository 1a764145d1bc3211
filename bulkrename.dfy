/**
 * The bulkrename command: the new name of every file of a directory from a
 * template with the placeholders {index}, {name} and {ext}, and the loop
 * that previews or performs the renames.
 */
module BulkRename {
  import opened Wrappers
  import opened Fs
  import opened Strings
  import opened Paths
  import opened Decimal

  const IndexToken: string := "{index}"
  const NameToken: string := "{name}"
  const ExtToken: string := "{ext}"

  /**
   * The template with its placeholders replaced one after the other:
   * first {index}, then {name}, then {ext}. Text brought in by an earlier
   * replacement is subject to the later ones.
   */
  function Substitute(pattern: string, index: int, base: string, ext: string): string
  {
    var withIndex := ReplaceAll(pattern, IndexToken, FormatInt(index));
    var withName := ReplaceAll(withIndex, NameToken, base);
    ReplaceAll(withName, ExtToken, ext)
  }

  /**
   * The new name of the file `name` at ordinal `index`: the substituted
   * template, with the extension appended when it holds no '.'. The result
   * holds a '.' whenever the file has an extension.
   */
  function NewFilename(pattern: string, index: int, name: string): (r: string)
    ensures Ext(name) != "" ==> '.' in r
  {
    var ext := Ext(name);
    var s := Substitute(pattern, index, Base(name), ext);
    if '.' in s then s
    else
      assert ext != "" ==> (s + ext)[|s|] == '.';
      s + ext
  }

  /** A template with a '.' and no placeholder names every file the same, as written. */
  lemma PlainPatternUnchanged(pattern: string, index: int, name: string)
    requires '.' in pattern
    requires !Contains(pattern, IndexToken) && !Contains(pattern, NameToken) && !Contains(pattern, ExtToken)
    ensures NewFilename(pattern, index, name) == pattern
  {
    ReplaceAllAbsent(pattern, IndexToken, FormatInt(index));
    ReplaceAllAbsent(pattern, NameToken, Base(name));
    ReplaceAllAbsent(pattern, ExtToken, Ext(name));
  }

  /** The {index} pass leaves "{name}{ext}" alone. */
  lemma IndexPassOnNameExt(index: int)
    ensures ReplaceAll(NameToken + ExtToken, IndexToken, FormatInt(index)) == NameToken + ExtToken
  {
    ReplaceAllOtherTokenFirst(NameToken, ExtToken, IndexToken, FormatInt(index));
  }

  /**
   * The template "{name}{ext}" gives back the original name, provided the
   * base name does not itself hold the text "{ext}".
   */
  lemma NameExtPatternRoundTrip(index: int, name: string)
    requires !Contains(Base(name), ExtToken)
    ensures NewFilename(NameToken + ExtToken, index, name) == name
  {
    var base, ext := Base(name), Ext(name);
    IndexPassOnNameExt(index);
    ReplaceAllTokenFirst(NameToken, ExtToken, base);
    ReplaceAllTrailingToken(base, ExtToken, ext);
    BaseExtRoundTrip(name);
    if '.' !in name {
      SplitWithoutDot(name);
    }
  }

  // The examples below take the file name as a parameter that their
  // requires fixes, rather than writing the literal into the ensures: the
  // split at the name's last '.' (SplitAtLastDot) then applies to a
  // variable, and the verifier does not unfold the literal's characters
  // through Ext and Base on its own. Each example's substitution is proved
  // in a lemma of its own.

  /** The substitution behind ExtTokenInBaseIsReplaced: the base "a{ext}" meets the template "{name}{ext}". */
  lemma ExtTokenInBaseSubstitution()
    ensures Substitute(NameToken + ExtToken, 1, "a" + ExtToken, ".txt") == "a.txt.txt"
  {
    var base := "a" + ExtToken;
    IndexPassOnNameExt(1);
    ReplaceAllTokenFirst(NameToken, ExtToken, base);
    ReplaceAllPlainFirst("a", ExtToken + ExtToken, ExtToken, ".txt");
    ReplaceAllTokenFirst(ExtToken, ExtToken, ".txt");
    ReplaceAllTokenFirst(ExtToken, [], ".txt");
    assert ExtToken + [] == ExtToken;
    assert base + ExtToken == "a" + (ExtToken + ExtToken);
    assert "a" + (".txt" + (".txt" + [])) == "a.txt.txt";
  }

  /** Substitution order, first example: {ext} inside the base name is replaced too. */
  lemma ExtTokenInBaseIsReplaced(name: string)
    requires name == "a{ext}.txt"
    ensures NewFilename(NameToken + ExtToken, 1, name) == "a.txt.txt"
  {
    SplitAtLastDot(name, 6);
    assert name[..6] == "a" + ExtToken && name[6..] == ".txt";
    ExtTokenInBaseSubstitution();
    assert "a.txt.txt"[1] == '.';
  }

  /** The substitution behind IndexTokenInBaseIsKept: {index} arrives only after its own pass. */
  lemma IndexTokenInBaseSubstitution()
    ensures Substitute(NameToken, 7, "x" + IndexToken, ".md") == "x" + IndexToken
  {
    var base := "x" + IndexToken;
    assert ReplaceAll(NameToken, IndexToken, FormatInt(7)) == NameToken;
    assert NameToken + [] == NameToken;
    ReplaceAllTokenFirst(NameToken, [], base);
    assert ReplaceAll(NameToken, NameToken, base) == base + [];
    assert base + [] == base;
    ReplaceAllPlainFirst("x", IndexToken, ExtToken, ".md");
    assert IndexToken + [] == IndexToken;
    ReplaceAllOtherTokenFirst(IndexToken, [], ExtToken, ".md");
    assert ReplaceAll(IndexToken, ExtToken, ".md") == IndexToken + [];
  }

  /** Substitution order, second example: {index} inside the base name is left alone. */
  lemma IndexTokenInBaseIsKept(name: string)
    requires name == "x{index}.md"
    ensures NewFilename(NameToken, 7, name) == "x{index}.md"
  {
    SplitAtLastDot(name, 8);
    assert name[..8] == "x" + IndexToken && name[8..] == ".md";
    IndexTokenInBaseSubstitution();
    assert '.' !in "x" + IndexToken;
    assert "x" + IndexToken + ".md" == name;
  }

  /** The {index} pass of IndexAndExtSubstitution. */
  lemma IndexAndExtIndexPass()
    ensures ReplaceAll("img-" + IndexToken + ExtToken, IndexToken, "5") == "img-5" + ExtToken
  {
    assert "img-" + IndexToken + ExtToken == "img-" + (IndexToken + ExtToken);
    ReplaceAllPlainFirst("img-", IndexToken + ExtToken, IndexToken, "5");
    ReplaceAllTokenFirst(IndexToken, ExtToken, "5");
    ReplaceAllAbsent(ExtToken, IndexToken, "5");
    assert "img-" + ("5" + ExtToken) == "img-5" + ExtToken;
  }

  /** The substitution behind IndexAndExtExample. */
  lemma IndexAndExtSubstitution()
    ensures Substitute("img-" + IndexToken + ExtToken, 5, "photo", ".jpg") == "img-5.jpg"
  {
    assert FormatInt(5) == "5";
    IndexAndExtIndexPass();
    ReplaceAllPlainFirst("img-5", ExtToken, NameToken, "photo");
    ReplaceAllTokenFirst(NameToken, [], "photo");
    ReplaceAllAbsent(ExtToken, NameToken, "photo");
    ReplaceAllPlainFirst("img-5", ExtToken, ExtToken, ".jpg");
    ReplaceAllTokenFirst(ExtToken, [], ".jpg");
    assert ExtToken + [] == ExtToken;
  }

  /** The template "img-{index}{ext}" numbers photo.jpg from 5 as img-5.jpg. */
  lemma IndexAndExtExample(name: string)
    requires name == "photo.jpg"
    ensures NewFilename("img-" + IndexToken + ExtToken, 5, name) == "img-5.jpg"
  {
    SplitAtLastDot(name, 5);
    assert name[..5] == "photo" && name[5..] == ".jpg";
    IndexAndExtSubstitution();
    assert "img-5.jpg"[5] == '.';
  }

  /** The substitution behind ExtensionAppendedExample. */
  lemma ExtensionAppendedSubstitution()
    ensures Substitute(NameToken + "-copy", 1, "report", ".pdf") == "report-copy"
  {
    ReplaceAllOtherTokenFirst(NameToken, "-copy", IndexToken, FormatInt(1));
    assert ReplaceAll("-copy", IndexToken, FormatInt(1)) == "-copy";
    ReplaceAllTokenFirst(NameToken, "-copy", "report");
    assert ReplaceAll("-copy", NameToken, "report") == "-copy";
    assert "report" + "-copy" == "report-copy";
    ReplaceAllPlainFirst("report-copy", [], ExtToken, ".pdf");
    assert "report-copy" + [] == "report-copy";
  }

  /** A template without a '.' gets the extension appended: {name}-copy turns report.pdf into report-copy.pdf. */
  lemma ExtensionAppendedExample(name: string)
    requires name == "report.pdf"
    ensures NewFilename(NameToken + "-copy", 1, name) == "report-copy.pdf"
  {
    SplitAtLastDot(name, 6);
    assert name[..6] == "report" && name[6..] == ".pdf";
    ExtensionAppendedSubstitution();
    assert '.' !in "report-copy";
    assert "report-copy" + ".pdf" == "report-copy.pdf";
  }

  /** Go's int on a 64-bit platform. */
  type Int64 = x: int | -0x8000_0000_0000_0000 <= x < 0x8000_0000_0000_0000

  /**
   * x wrapped into the int64 range as Go's int arithmetic wraps it: the one
   * value of that range congruent to x modulo 2^64.
   */
  function Wrap64(x: int): (r: Int64)
    ensures -0x8000_0000_0000_0000 <= x < 0x8000_0000_0000_0000 ==> r == x
    ensures (x - r) % 0x1_0000_0000_0000_0000 == 0
  {
    (x + 0x8000_0000_0000_0000) % 0x1_0000_0000_0000_0000 - 0x8000_0000_0000_0000
  }

  /** The {index} of the i-th file (from 0): startNum + i, computed in Go's int. */
  function Ordinal(startNum: Int64, i: nat): (k: Int64)
    ensures startNum + i < 0x8000_0000_0000_0000 ==> k == startNum + i
  {
    Wrap64(startNum + i)
  }

  /** A --start at the top of the int range numbers the second file with the most negative int. */
  lemma OrdinalWraps()
    ensures Ordinal(0x7fff_ffff_ffff_ffff, 1) == -0x8000_0000_0000_0000
  {
  }

  /**
   * The naming a template defines for a run started at startNum: the new
   * name of the file at position i (from 0), whose ordinal is
   * Ordinal(startNum, i).
   */
  function Template(pattern: string, startNum: Int64): (nat, string) -> string
  {
    (i: nat, name: string) => NewFilename(pattern, Ordinal(startNum, i), name)
  }

  /**
   * The rename of the file f of `dir` at position i under the naming
   * newName: from the file's path to the new name joined onto `dir`. A new
   * name that is one ordinary element keeps the file in `dir`.
   */
  function RenameOf(dir: Path, newName: (nat, string) -> string, i: nat, f: FileEntry): (r: Rename)
    ensures r.from == dir + [f.name]
    ensures var n := newName(i, f.name);
      '/' !in n && n != "" && n != "." && n != ".." ==> r.to == dir + [n]
  {
    Rename(dir + [f.name], Join(dir, newName(i, f.name)))
  }

  /** The new path of a renamed file is clean whenever the directory is. */
  lemma RenameTargetClean(dir: Path, newName: (nat, string) -> string, i: nat, f: FileEntry)
    requires CleanPath(dir)
    ensures CleanPath(RenameOf(dir, newName, i, f).to)
  {
    JoinClean(dir, newName(i, f.name));
  }

  /**
   * The template "{name}{ext}" renames an ordinary file onto itself,
   * provided its base name does not hold the text "{ext}".
   */
  lemma NameExtPatternRenamesInPlace(dir: Path, startNum: Int64, i: nat, f: FileEntry)
    requires '/' !in f.name && f.name != "" && f.name != "." && f.name != ".."
    requires !Contains(Base(f.name), ExtToken)
    ensures RenameOf(dir, Template(NameToken + ExtToken, startNum), i, f).to == dir + [f.name]
  {
    NameExtPatternRoundTrip(Ordinal(startNum, i), f.name);
  }

  /** The {index} and {name} passes of SubfolderSubstitution. */
  lemma SubfolderNamePasses()
    ensures ReplaceAll(ReplaceAll("sub/" + NameToken + ExtToken, IndexToken, FormatInt(1)), NameToken, "a")
      == "sub/a" + ExtToken
  {
    assert "sub/" + NameToken + ExtToken == "sub/" + (NameToken + ExtToken);
    ReplaceAllPlainFirst("sub/", NameToken + ExtToken, IndexToken, FormatInt(1));
    IndexPassOnNameExt(1);
    ReplaceAllPlainFirst("sub/", NameToken + ExtToken, NameToken, "a");
    ReplaceAllTokenFirst(NameToken, ExtToken, "a");
    ReplaceAllAbsent(ExtToken, NameToken, "a");
    assert "sub/" + ("a" + ExtToken) == "sub/a" + ExtToken;
  }

  /** The substitution behind SubfolderTemplateExample. */
  lemma SubfolderSubstitution()
    ensures Substitute("sub/" + NameToken + ExtToken, 1, "a", ".txt") == "sub/a.txt"
  {
    SubfolderNamePasses();
    ReplaceAllPlainFirst("sub/a", ExtToken, ExtToken, ".txt");
    ReplaceAllTokenFirst(ExtToken, [], ".txt");
    assert ExtToken + [] == ExtToken;
  }

  /** The new name behind SubfolderTemplateExample: a '.' is present, so nothing is appended. */
  lemma SubfolderNewName(name: string)
    requires name == "a.txt"
    ensures NewFilename("sub/" + NameToken + ExtToken, 1, name) == "sub/a.txt"
  {
    SplitAtLastDot(name, 1);
    assert name[..1] == "a" && name[1..] == ".txt";
    SubfolderSubstitution();
    assert "sub/a.txt"[5] == '.';
  }

  /**
   * A separator in the template moves the file: "sub/{name}{ext}" sends
   * a.txt into the sub-folder sub.
   */
  lemma SubfolderTemplateExample(dir: Path, name: string)
    requires name == "a.txt"
    ensures Join(dir, NewFilename("sub/" + NameToken + ExtToken, 1, name)) == dir + ["sub", "a.txt"]
  {
    SubfolderNewName(name);
    assert "sub/a.txt" == "sub" + "/" + "a.txt";
    JoinSubfolder(dir, "sub", "a.txt");
  }

  /** The renames for the files of `dir`, in listing order, one per position. */
  function Plan(dir: Path, newName: (nat, string) -> string, files: seq<FileEntry>): (p: seq<Rename>)
    ensures |p| == |files|
  {
    if files == [] then []
    else
      var n := |files| - 1;
      Plan(dir, newName, files[..n]) + [RenameOf(dir, newName, n, files[n])]
  }

  /** The i-th file (from 0) is renamed by the naming at position i. */
  lemma {:induction false} PlanPosition(dir: Path, newName: (nat, string) -> string, files: seq<FileEntry>, i: nat)
    requires i < |files|
    ensures Plan(dir, newName, files)[i] == RenameOf(dir, newName, i, files[i])
    decreases |files|
  {
    var n := |files| - 1;
    if i < n {
      PlanPosition(dir, newName, files[..n], i);
      assert files[..n][i] == files[i];
    }
  }

  /**
   * Under a template, the i-th file (from 0) is renamed to the name the
   * template gives it at ordinal startNum + i, joined onto `dir`.
   */
  lemma PlanUnderTemplate(dir: Path, pattern: string, startNum: Int64, files: seq<FileEntry>, i: nat)
    requires i < |files|
    ensures Plan(dir, Template(pattern, startNum), files)[i]
      == Rename(dir + [files[i].name], Join(dir, NewFilename(pattern, Ordinal(startNum, i), files[i].name)))
  {
    PlanPosition(dir, Template(pattern, startNum), files, i);
  }

  /** The plan for one more file is the plan so far followed by that file's rename. */
  lemma PlanExtend(dir: Path, newName: (nat, string) -> string, files: seq<FileEntry>, i: nat)
    requires i < |files|
    ensures Plan(dir, newName, files[..i + 1]) == Plan(dir, newName, files[..i]) + [RenameOf(dir, newName, i, files[i])]
  {
    assert files[..i + 1][..i] == files[..i];
  }

  /** The error of the rename of the i-th file (from 0). */
  function RenameError(dir: Path, newName: (nat, string) -> string, files: seq<FileEntry>, i: nat): Error
    requires i < |files|
  {
    var failed := RenameOf(dir, newName, i, files[i]);
    RenameFailed(failed.from, failed.to)
  }

  /**
   * The loop over the files. A dry run previews every rename and performs
   * none. Otherwise the renames are performed in order, stopping at the
   * first that fails; `failAt` holds the positions whose rename fails.
   * Returns the renames previewed, the renames performed, and the error of
   * the rename that failed.
   */
  method RenameFiles(dir: Path, newName: (nat, string) -> string, files: seq<FileEntry>,
                     dryRun: bool, failAt: set<nat>)
    returns (previewed: seq<Rename>, renamed: seq<Rename>, err: Option<Error>)
    ensures dryRun ==>
      previewed == Plan(dir, newName, files) && renamed == [] && err == None
    ensures !dryRun ==>
      var n := FirstFailure(failAt, |files|);
      previewed == [] && renamed == Plan(dir, newName, files[..n]) &&
      err == (if n < |files| then Some(RenameError(dir, newName, files, n)) else None)
  {
    previewed, renamed := [], [];
    var i := 0;
    while i < |files|
      invariant 0 <= i <= |files|
      invariant (if dryRun then previewed else renamed) == Plan(dir, newName, files[..i])
      invariant (if dryRun then renamed else previewed) == []
      invariant !dryRun ==> FirstFailure(failAt, i) == i
    {
      var step := RenameOf(dir, newName, i, files[i]);
      PlanExtend(dir, newName, files, i);
      if dryRun {
        previewed := previewed + [step];
      } else {
        if i in failAt {
          FirstFailureAt(failAt, |files|, i);
          assert RenameError(dir, newName, files, i) == RenameFailed(step.from, step.to);
          return previewed, renamed, Some(RenameFailed(step.from, step.to));
        }
        renamed := renamed + [step];
      }
      i := i + 1;
    }
    assert files[..i] == files;
    err := None;
  }

  /**
   * The bulkrename command. `argc` counts the positional arguments, `stat`
   * is what stat says of `dir`, `readFails` whether reading the directory
   * fails, `entries` the listing, `startNum` the --start value, and
   * `failAt` the positions whose rename fails. Returns the renames
   * previewed (a dry run), the renames performed, and the error.
   */
  method Execute(argc: nat, dir: Path, pattern: string, stat: Stat, readFails: bool,
                 entries: seq<FileEntry>, dryRun: bool, startNum: Int64, failAt: set<nat>)
    returns (previewed: seq<Rename>, renamed: seq<Rename>, err: Option<Error>)
    ensures CheckDirectory(argc, 2, dir, stat).Some? ==>
      previewed == [] && renamed == [] && err == CheckDirectory(argc, 2, dir, stat)
    ensures CheckDirectory(argc, 2, dir, stat).None? && readFails ==>
      previewed == [] && renamed == [] && err == Some(ReadFailed(dir))
    ensures CheckDirectory(argc, 2, dir, stat).None? && !readFails && dryRun ==>
      previewed == Plan(dir, Template(pattern, startNum), NonDirectories(entries)) &&
      renamed == [] && err == None
    ensures CheckDirectory(argc, 2, dir, stat).None? && !readFails && !dryRun ==>
      var files := NonDirectories(entries);
      var n := FirstFailure(failAt, |files|);
      previewed == [] && renamed == Plan(dir, Template(pattern, startNum), files[..n]) &&
      err == (if n < |files| then Some(RenameError(dir, Template(pattern, startNum), files, n)) else None)
  {
    var pre := CheckDirectory(argc, 2, dir, stat);
    if pre.Some? {
      return [], [], pre;
    }
    if readFails {
      return [], [], Some(ReadFailed(dir));
    }
    var files := CollectFiles(entries);
    previewed, renamed, err := RenameFiles(dir, Template(pattern, startNum), files, dryRun, failAt);
  }
}
